# Sunshine: verified models of the streaming host

Sunshine is a self-hosted game stream host. This project models the parts of it that carry protocol state,
arithmetic with hard limits, or invariants over a whole run, and proves what they are for. Every file is one
component; `dafny verify dfyconfig.toml` checks all of them.

## The components

**Video, from an encoded frame to packets** (`src/stream.cpp`). A frame gets an eight-byte header and is sliced
with a gap for a packet header before every slice (`Packetizer`). The result is cut into at most four aligned FEC
blocks (`FecSplit`), every packet of a block is stamped in place, the block is sharded, padded and given parity
shards (`FecEncode`, `FecInfo`), the shards get their send headers, are encrypted in place and leave in batches or
one by one (`VideoSend`, `VideoThread`). `ReedSolomon` is what is used of the code: as many shards as there are data
shards, whichever they are, give the data shards. Of every block the packets opened by a client keep that property
behind their headers, whatever the stamping and encryption in between (`VideoThread.VideoStream.SendFecBlock`).

`VideoClient` is a client that knows nothing but the packets: it takes the opened packets of a frame in whatever order
they arrive, reads block, number of blocks, index and count from their headers, accepts the frame when no two packets
claim one place and every block has its data packets, and puts those in order, joins the payloads and cuts the last
one (`Reassembly`). `VideoFrames.SendFrame` runs the whole sending chain on arrays and proves, in one contract, that
this client gets the frame header and the payload back exactly when the length of the last payload is below 65536 and
`VideoLimits.FrameFits` holds. Both are about the size of the frame and the settings of the session, and nothing else.
`FrameFits` says: when the frame is too large for four blocks with FEC, the block size the source tests itself is
below 1024 packets; otherwise, in every block of the split, the client's minimum of parity shards does not apply or
stands for less than 256 percent (`VideoLimits.SplitFitsIff`). With FEC a minimum of at most two is never in the way
(`VideoLimits.SmallMinimumFits`). `VideoNumbers` and `VideoRun` are about the run: after any number of frames packet k
on the wire carries the RTP number k modulo 65536 and the k-th IV, and the batches of the frames, fed to the pacer,
keep its rate bound for what is on the wire. `Pacing` bounds the rate over any run of frames, `GcmIv` covers the
counters and IVs of everything that shares the session key, and `AudioFec` is the sibling loop for audio.

**Input** (`src/input.cpp`). `InputMessages` has the batching rules, `InputQueue` the queue with the loop that
erases entries in place, and `InputRefinement` what a receiver can tell. Seen from one key (message type plus
controller, pointer or sensor) the stream is a sequence of that key's messages, with a bar wherever messages of
another type come in between. Batching only ever drops a message that the next one of the same key, in the same
discrete state and with no bar in between, supersedes; relative motion adds up between bars. `InputBatching` says of
every type when two messages are merged, when one is moved past, and that a delivery leaves nothing behind that could
have been merged into it. `Gamepads` is the
bitmask of gamepad ids that all sessions share, with frees deferred to queued jobs.

**Timers and workers** (`src/task_pool.h`, `src/thread_pool.h`). `TaskPool` is the sorted vector of timers and the
FIFO, changed in place. `ThreadPool` is a state machine: one step is what a thread does between two points where
another can come in, with the lock, the wait and the wake-up as separate steps.

**Configuration text** (`src/config.cpp`, `src/confighttp.cpp`). `ConfigFile` has the parser as it searches through
the text, the printing loop, the round trip, and what a text of settings, comments and lines that set nothing means,
with indents, trailing comments, lists with comment lines and either line ending.

**Pairing** (`src/nvhttp.cpp`). `Pairing` has the four phases as steps on a session and the runs of requests for any
number of sessions; `PairServer` is the server with its table, every handler proved to be the step. Cryptography is
a set of functions of which only three laws are used: decryption undoes encryption of whole blocks, a certificate
verifies what its key signed, and hashes and signatures have a size.

**Apps** (`src/process.cpp`). `ProcStack` runs the prep commands of an app and undoes them; a ghost trace of what
happened has a meaning of its own as a stack, and the lines given to the system are stated as lists of the app's own
commands. `EnvExpand` is the expansion of `$(NAME)`, whose two-cursor loop
is proved equal to a recursive meaning, and that meaning to what a text says token by token.

**Capture images** (`src/video.cpp`). `ImagePool` is the pool of twelve slots, most recently handed out first,
trimmed by time.

## Where the code and its comments differ

- The comments at src/input.cpp lines 1260, 1300 and 1320 say that two relative messages are batched when the sum
  does not overflow 16 bits. The tests at lines 1261, 1264, 1301 and 1321 negate `__builtin_add_overflow`, which is
  true on overflow, so they batch exactly when it does. `InputMessages.Reading` keeps both. Everything about other
  keys, and the sum modulo 65536, holds for either reading. Exact motion is kept by every merge under the commented
  one and changed by every merge under the written one, for movement and both kinds of scrolling
  (`InputRefinement.MergesOnEveryAxis`, with an example in `InputRefinement.WrittenTestReversesMotion`). Over several
  merges the wraps can cancel (`InputRefinement.WrapsCanCancel`): one delivery keeps the exact motion if and only if
  on each axis what is merged adds up to 16 bits (`InputRefinement.ExactIffWrapsCancel`,
  `InputRefinement.WrapsCancelIff`), and a whole run does if and only if in every stretch between messages of other
  types the wraps of all merges cancel (`InputQueue.ExactOverRun`).
- `TaskPool::delay` bubbles in one direction only. `TaskPool.Pool.Delay` states for every new time exactly when
  the order is restored; it always is when the new time is not earlier than the old one.
- The comment at src/stream.cpp line 650 has the percentage increased to meet the client's minimum of parity shards.
  A client that computes the parity count from the eight bits it reads gets the count used exactly when the minimum
  did not apply, or the new percentage is below 256 and its division lost less than one shard
  (`FecInfo.ParityRecomputes`). Both can fail: 152 data shards at 1 percent with a minimum of 3
  (`FecInfo.ParityRecomputationCanFail`), and a single data shard with a minimum of 3, which is 300 percent and reads
  as 44 (`FecInfo.SingleShardParity`). The high bits of such a percentage also spill into the index, so that the only
  data packet of that block announces itself as parity (`FecInfo.LonePacketMisplaced`): a frame of one packet fits
  exactly when the minimum does not apply or is at most two (`VideoLimits.LonePacketFits`). The minimum comes
  unchecked from the client (src/rtsp.cpp line 978).
- A block of 1024 packets or more is logged as unrecoverable and sent (src/stream.cpp lines 1389 to 1393). A frame
  of 4092 bytes in packets with one byte of payload each makes blocks of 1025 and does not fit
  (`VideoLimits.FrameTooLong`): packets 0 and 1024 then claim one place (`FecInfo.PacketsCollide`).

- `#` starts a comment (src/config.cpp line 607), but not right behind the bracket that closes a list: there the
  character is skipped like a line end (line 688), and a setting behind it counts (`ConfigFile.CommentBehindList`).
- The comment at src/config.cpp line 660 speaks of a list that is never closed. Only a lone bracket at the very end is
  refused; every other open list is the value up to the end of the text (`ConfigFile.ListLocated`).

## Conventions

Constants of the protocol structures that come from a client library header that is not part of the repository (field
offsets and sizes of the RTP and video packet headers, flag values, touch event numbers) are named constants;
`MAX_RTP_HEADER_SIZE` is taken to be the size of an RTP packet plus the four reserved bytes. Clocks, random values,
outcomes of system calls, ciphers and the Reed-Solomon code are parameters.

## Model

| member | source | states |
|---|---|---|
| Packetizer.ConcatAndInsert | src/stream.cpp:727-763 | for every pair of buffers and every gap and slice size, the array filled in place is the interleaving: before each slice its gap, the slices in order and nothing left over |
| Packetizer.CopySlice | src/stream.cpp:745-759 | the slice that goes into the result is the right stretch of both buffers joined, also when it runs from one into the other, and the cursor ends behind it |
| Packetizer.InterleaveLength | src/stream.cpp:728-733 | the buffer allocated beforehand has exactly the size of the interleaving |
| Packetizer.InterleaveSnoc | src/stream.cpp:737-760 | appending one slice to whole slices adds one gap and the slice, which ties the loop to the recursive meaning |
| Reassembly.StripInterleaved | src/stream.cpp:1348-1353 | sharding an interleaved frame and stripping every packet header gives the frame and the zero padding of its last packet |
| Reassembly.FrameReassembles | src/stream.cpp:1323-1353 | whatever is written into the packet headers, joining the payloads and cutting the last one to the length in the frame header gives the frame header and payload exactly when that length fits 16 bits |
| Reassembly.LastFits | src/stream.cpp:1328-1331 | the last payload is never longer than a packet's, so it fits for every payload size below 65536 |
| Reassembly.LastPayloadField | src/stream.cpp:1328-1331 | the 16-bit field holds the length of the last payload whenever that fits |
| Reassembly.LastPayloadCanBeTooLong | src/stream.cpp:1328-1331 | in packets of 70000 bytes, which no UDP datagram holds, the field of a frame of 70000 bytes says 4464 |
| Reassembly.HeaderRead | src/stream.cpp:89-118 | a client reads type 1, the latency modulo 16 bits, the type of the frame and the last length modulo 16 bits from their places, and zeros in the reserved bytes |
| Reassembly.DataShardsAppend | src/stream.cpp:1385-1404 | cutting at a packet boundary cuts the list of shards, so blocks can be sharded one by one |
| FecSplit.SplitBlocks | src/stream.cpp:1355-1404 | for every size and percentage 1 to 255 the blocks are those of `Split`, a function of size, block size and percentage, and FEC is off exactly when more than four are needed; the split is a good one |
| FecSplit.SplitIsGood | src/stream.cpp:1355-1404 | at most four non-empty blocks that follow each other from the first byte to the last, all offsets and all but the last length multiples of the block size, all but the last an equal part rounded up; FEC is off exactly when four blocks of the maximum do not hold the frame, and otherwise there are as few blocks as do, each within its maximum of data shards and with its parity within 255 |
| FecSplit.ParityFits | src/stream.cpp:1358-1365 | data plus parity shards stay within 255 exactly when the data shards are within the computed maximum |
| FecSplit.ParityIsCeiling | src/stream.cpp:646-648 | the parity count is the percentage of the data count, rounded up |
| FecSplit.SplitFacts | src/stream.cpp:1385-1404 | rounding the pieces up to whole packets leaves a non-empty last block, and none is larger than the maximum when four blocks suffice |
| FecInfo.FecInfoDecodes | src/stream.cpp:1484-1487 | index, data count and percentage are read back from the 32-bit field exactly when they fit 10, 10 and 8 bits |
| FecInfo.OrDisjoint | src/stream.cpp:1485-1487 | or-ing shifted fields is adding them when the lower one ends below the higher |
| FecInfo.AdjustedIs | src/stream.cpp:646-656 | with FEC the parity count is the larger of the client's minimum and the percentage of the data count rounded up, and the percentage reported is the one configured or that of the minimum rounded down; without FEC both are zero |
| FecInfo.ParityRecomputes | src/stream.cpp:646-656 | a client that evaluates the parity formula with the eight bits it reads gets the parity count used exactly when the minimum did not apply, or the new percentage is below 256 and the division lost less than one shard |
| FecInfo.ParityRecomputesForSmallBlocks | src/stream.cpp:646-656 | with at most 100 data shards it does exactly when the minimum did not apply or the new percentage is below 256 |
| FecInfo.ParityRecomputationCanFail | src/stream.cpp:646-656 | 152 data shards at 1 percent with a minimum of 3 report a percentage that stands for 2 |
| FecInfo.SingleShardParity | src/stream.cpp:646-656 | a block of one data shard announces its parity count exactly when the minimum is at most 2 |
| FecInfo.LonePacketMisplaced | src/stream.cpp:1484-1487 | with a minimum of 3 or more its only data packet announces an index that is not below its count of one |
| FecInfo.IndexRead | src/stream.cpp:1484-1487 | for every index, count and percentage, the index read is the low ten bits with the percentage above eight bits or-ed in |
| FecInfo.CountRead | src/stream.cpp:1484-1487 | for all three, the count read is its low ten bits with what is above ten bits of the index and 18 of the percentage or-ed in |
| FecInfo.PercentageRead | src/stream.cpp:1484-1487 | for all three, the percentage read is its low eight bits |
| FecInfo.PacketsCollide | src/stream.cpp:1484-1487 | packets 0 and 1024 of a block read as the same index, whatever else is announced |
| VideoLimits.FitsWithFec | src/stream.cpp:646-656 | a block with FEC fits all its fields exactly when the minimum does not apply or stands for less than 256 percent |
| VideoLimits.LastQuarter | src/stream.cpp:1385-1404 | of a frame in packets, cut in four, the last block is never longer than the others |
| VideoLimits.SplitFitsWithoutFec | src/stream.cpp:1385-1393 | without FEC all blocks fit their fields exactly when the block size the source tests is below 1024 packets |
| VideoLimits.SplitFitsIff | src/stream.cpp:1355-1404 | every block of the split fits its fields exactly when the size of the frame, the packet size, the percentage and the minimum satisfy `FrameFits` |
| VideoLimits.SmallMinimumFits | src/stream.cpp:646-656 | with FEC every frame fits when the minimum is at most two |
| VideoLimits.LonePacketFits | src/stream.cpp:646-656 | a frame of one packet fits exactly when the minimum does not apply or is at most two |
| VideoLimits.FrameTooLong | src/stream.cpp:1368-1393 | 4092 bytes behind the frame header in packets with one payload byte each go without FEC into blocks of 1025 packets, and the frame does not fit whatever the minimum |
| FecInfo.MinimumCanExceedLimit | src/stream.cpp:646-656 | 252 data shards at 1 percent are within the limit of 255, and 257 shards with a minimum of 5 |
| FecEncode.Encode | src/stream.cpp:641-717 | any dataShards of the shards where the shard pointers say, decoded, are the data shards of the block, the last one zero-padded; pointers, descriptors and allocated memory lay them out in order, and the frame is unchanged |
| FecEncode.EncodedRecovers | src/stream.cpp:694-706 | any dataShards of data and parity shards give the data shards of the block |
| ReedSolomon.PayloadsRecover | src/stream.cpp:694-706 | of shards made by the code, what lies behind a header comes back from as many shards as there are data shards, from what lies behind their headers alone |
| FecEncode.PlacesApart | src/stream.cpp:668-698 | no two shards overlap in memory, although some are in the frame and some allocated |
| FecEncode.BatchedViewIsPerPacketView | src/stream.cpp:665-704 | block i of the buffer descriptors taken one after the other starts where shard pointer i points, for every i |
| FecEncode.BufferForPayloadOffset | src/stream.cpp:1457-1463 | the descriptor that holds an offset, advanced to it |
| VideoSend.StampNv | src/stream.cpp:1431-1446 | the stores into a packet of the frame change its header fields to the values of `NvHeader` and nothing else in the array; `VideoThread.NvFields` reads them back |
| VideoSend.StampSend | src/stream.cpp:1482-1494 | the same for the stores before sending |
| VideoSend.MultiFecBlocksDecodes | src/stream.cpp:1438 | block index and number of blocks are read back from their two bits each |
| VideoThread.StampBlock | src/stream.cpp:1428-1447 | after the loop every packet of the block has its header and its old payload, also a short last one, and the frame behind the block is unchanged |
| VideoThread.HeaderInShard | src/stream.cpp:1431-1446 | a header written into packet x replaces the header of data shard x and no byte of any other shard |
| VideoThread.NvFields | src/stream.cpp:1431-1446 | a receiver reads from a stamped header 24 bits of the packet number in the stream index, picture data in every packet, the start flag exactly in the first and the end flag exactly in the last packet of the block |
| VideoThread.PrepareBlock | src/stream.cpp:1428-1451 | the shards encoded are the shards of the stamped block and the parity over them, as many as the adjusted parity count asks for, where the pointers say; behind the headers any dataShards of them give the data shards |
| VideoThread.FinishShard | src/stream.cpp:1482-1515 | one shard is stamped and encrypted in place, with the IV of its position in the run |
| VideoThread.VideoStream.PointerTo | src/stream.cpp:1540-1557 | the batched view and the shard pointer give the same address |
| VideoThread.VideoStream.Send | src/stream.cpp:1536-1560 | a batch and the per-packet fallback put the same packets on the wire |
| VideoThread.BatchLimitIs | src/stream.cpp:1410-1418 | a batch has at most 64 packets and at most 64 KiB, and one packet more would break one of the two |
| VideoThread.VideoStream.SendBlock | src/stream.cpp:1480-1566 | every shard of the block is sent once, in order, whatever batches the platform takes, in batches of which all but the last have the size of the limit; the IV counter moves on by one for each |
| VideoThread.VideoStream.SendFecBlock | src/stream.cpp:1427-1583 | one FEC block: every packet opens to its number, time, frame index, block position and FEC information and has its IV and tag; every data packet has its stream index, the start flag exactly in the first and the end flag exactly in the last; the payloads of the data packets are those of the frame; and from any dataShards of the packets, behind their headers, those payloads come back; the rest of the frame is untouched |
| VideoThread.BlockIsOnWire | src/stream.cpp:1430-1494 | what a receiver opens has number, time, frame index, block position and FEC information, a data packet also its stream index, start and end flags, read bit by bit, and the payload of the shard |
| VideoThread.BlockRecovers | src/stream.cpp:694-706 | whichever packets of a block are lost, as long as as many arrive as there are data packets: what they carry behind their headers, opened and decoded, is what the data packets carry |
| VideoFrames.SendFrame | src/stream.cpp:1303-1585 | one frame end to end: the blocks sent are those of the split, every packet names the frame, its time and its place in the block, numbers and IV counter run on from block to block and frame to frame, every block leaves in full batches but the last and comes back from any dataShards of its packets, and for every order of arrival the client that reads only the packets gets the frame header and the payload exactly when the last payload is below 65536 bytes and the size of the frame and the settings satisfy `FrameFits` |
| VideoFrames.FrameStamped | src/stream.cpp:1428-1515 | every packet of a frame opens to the frame's index and time, every data packet has the flags of its place, and an encrypted one carries the frame's index and the tag of its content |
| VideoFrames.FrameFitsIff | src/stream.cpp:1355-1494 | what is put in the fields of all packets sent fits them exactly when `FrameFits` holds of the frame that was to be sent |
| VideoFrames.ClientReassembles | src/stream.cpp:1323-1494 | the same for every sequence of blocks on the wire that are the shards of a packetised frame, however it was split, padded and encrypted |
| VideoFrames.UsualBlockFits | src/stream.cpp:1355-1369 | a block within 255 shards whose parity is not below the minimum fits all three fields |
| VideoFrames.PacketsWithinLimit | src/stream.cpp:646-660 | the packets of a block sent with FEC are at most 255 exactly when data shards plus the minimum are |
| VideoClient.ReadsIff | src/stream.cpp:1430-1494 | for any blocks whose packets carry their place: in whatever order they arrive, the client reads the frame exactly when everything fits its field, and then the data packets in the order of the host |
| VideoClient.UnreadableWhenTooLarge | src/stream.cpp:1389-1393 | each of too many packets, too many data packets and too large a percentage keeps the client from the frame |
| VideoClient.CopiesInAnyOrder | src/stream.cpp:1481-1494 | how many packets claim a place does not depend on the order of arrival |
| VideoFrames.SendNext | src/stream.cpp:1427-1583 | each block continues the numbering, and the data packets so far are the shards of the frame so far |
| VideoFrames.PacketsNumbered | src/stream.cpp:1489-1508 | packet k of a frame opens to the k-th RTP number after the frame's first, modulo 65536, for a data packet with 24 bits of the same number in its stream index, and carries the IV of the k-th counter value |
| VideoNumbers.NumbersAgree | src/stream.cpp:1430-1436 | consecutive RTP numbers modulo 65536, and 24 bits of the same number in the stream packet index from bit 8 on |
| VideoRun.NumbersOnWire | src/stream.cpp:1430-1491 | after any number of frames, packet k on the wire of a session opens to RTP number k modulo 65536, and a data packet to k modulo 2 to the 24, shifted by eight, in its stream index |
| VideoRun.IvsOnWire | src/stream.cpp:1498-1508 | after any number of frames, two packets on the wire have the same IV exactly when a multiple of 2 to the 64 lies between them |
| VideoRun.SendPacedFrame | src/stream.cpp:1420-1585 | a frame sent and its batches paced: the pacer has counted exactly the packets on the wire |
| VideoRun.BatchesOfFrame | src/stream.cpp:1480-1566 | the batches of a frame are within the largest batch the pacer knows and have all its packets |
| VideoRun.RateOnWire | src/stream.cpp:1408-1424 | at every instant of every run, since any frame start, the packets on the wire are within the rate bound for 100000 divided by the block size packets a millisecond and the batch size of the stream |
| Pacing.PacketsPerMsIs | src/stream.cpp:1408 | the chain of truncating divisions is 100000 divided by the block size, and at least 1 exactly up to that block size |
| Pacing.Pacer.BeginFrame | src/stream.cpp:1420-1424 | a frame never starts before the packets of the one before have had their time, and the bound carries over |
| Pacing.Pacer.Pace | src/stream.cpp:1519-1534 | when a group is full, or before the first batch, the wait lasts until the packets sent have had their time, and no longer but for the oversleep; otherwise there is no wait |
| Pacing.Pacer.SendBatch | src/stream.cpp:1517-1565 | a batch keeps the rate bound since every frame start, whatever the clock lag and oversleep |
| Pacing.Pacer.EndBlock | src/stream.cpp:1568-1571 | the next frame may start once the packets of this one have had their time, rounded down to a nanosecond |
| Pacing.Pacer.SendFrame | src/stream.cpp:1420-1583 | whole frames of any number of blocks keep it, so it composes over a run |
| Pacing.RateAtAnyInstant | src/stream.cpp:1408-1424 | at every instant of every run, since any frame start at most P packets for each elapsed millisecond plus P + B have left, up to one nanosecond of rounding for each frame begun since |
| GcmIv.IvInjective | src/stream.cpp:435-447 | two IVs are equal exactly when stream, direction and counter modulo its width are |
| GcmIv.IvLayout | src/stream.cpp:432-447 | byte by byte: the counter in little-endian order, zeros, and a letter for the stream, which all but video have a letter for the sender before |
| GcmIv.AfterIsModulo | src/stream.cpp:1506-1508 | counting step by step is addition modulo the width |
| GcmIv.KeyUses.VideoShard | src/stream.cpp:1498-1508 | the video counter is used and then incremented, wrapping at 64 bits |
| GcmIv.KeyUses.EncodeControl | src/stream.cpp:432-447 | the control sequence number is used and then incremented, wrapping at 32 bits |
| GcmIv.KeyUses.Respond | src/rtsp.cpp:683-696 | the RTSP counter is incremented and then used |
| GcmIv.HostIvsRepeatOnlyOnWrap | src/stream.cpp:1498-1508 | over every run of one session two host IVs are equal exactly when they are of one stream and a multiple of the counter's range lies between them |
| GcmIv.NoRepeatWithinRange | src/stream.cpp:435-447 | no IV repeats while fewer uses than the counter's range have been made |
| AudioFec.AudioStream.Send | src/stream.cpp:1619-1690 | packet k of the session is numbered k modulo 65536 and stamped k times the duration modulo 2 to the 32, placed by its number alone, and the wire stays as `Wired` says: every packet once, in order, and after every fourth two parity packets numbered on, with the first number and time of their block |
| AudioFec.AudioStream.Complete | src/stream.cpp:1669-1690 | parity is computed over exactly the four packets of the block and sent behind them |
| AudioFec.BlockPosition | src/stream.cpp:1634-1670 | the 16-bit number gives the position in the block, also across its wrap |
| AudioFec.EveryPacketIsCovered | src/stream.cpp:1627-1690 | parity computation b is over packet k exactly when b is k / 4; it sees it in slot k % 4 and announces the base number of its block |
| AudioFec.PacketsRecover | src/stream.cpp:1669-1690 | any four of the six packets on the wire of a block give its four audio packets, when these have one size |
| AudioFec.WaitingPackets | src/stream.cpp:1669-1690 | the packets without parity are exactly those behind the last multiple of four |
| InputRefinement.ScanThins | src/input.cpp:1336-1486 | one pass over the queue drops from every state-carrying key only superseded messages |
| InputRefinement.MergeThins | src/input.cpp:1280-1289 | what is batched into a message supersedes it and is of the same key and discrete state |
| InputRefinement.SkipThins | src/input.cpp:1342-1346 | a message left in the queue does not show to the key that moves past it |
| InputBatching.BatchedIff | src/input.cpp:1274-1474 | of two messages that carry a state the later one is sent alone exactly when, type by type, it is of the same controller, pointer or sensor and in the same state: size, mask, buttons, tool, and of touches a move or a hover |
| InputBatching.NotBatchableIff | src/input.cpp:1336-1486 | a message is moved past exactly when it is of the same type, of another controller, pointer or sensor, with the same mask, and of touches a move or hover as far as the code asks |
| InputBatching.ScanExhausts | src/input.cpp:1530-1569 | after a pass, in front of the place where the queue ends or a message ends the batch, only messages that are moved past stand behind the one sent |
| InputBatching.LeftBehind | src/input.cpp:1530-1569 | a message left in the queue that could take over from the one sent stands behind one that must not be moved past |
| InputRefinement.ThinsTrans | src/input.cpp:1530-1569 | dropping superseded messages twice is dropping superseded messages |
| InputRefinement.ThinsKeepsFinals | src/input.cpp:1336-1486 | the last message before every change of state, before every message of another type and at the end is kept, in order |
| InputRefinement.ThinsIsSubsequence | src/input.cpp:1530-1569 | what is delivered of a key is a subsequence of what was queued |
| InputRefinement.ScanKeepsTotals | src/input.cpp:1250-1328 | relative motion between messages of other types has the same totals, modulo 65536 under either reading of the overflow test, exactly under the commented one, and exactly for the types the pass does not merge |
| InputRefinement.UnobservablePush | src/input.cpp:1628-1634 | queueing one more message keeps the relation between queued and delivered |
| InputRefinement.UnobservableNext | src/input.cpp:1530-1569 | delivering the next one, with everything batched into it, keeps it |
| InputRefinement.MergesOnEveryAxis | src/input.cpp:1256-1328 | for movement, vertical and horizontal scrolling: as written two messages merge exactly when every axis overflows, as commented exactly when none does, and on every axis the merged motion is the sum exactly in the second case |
| InputRefinement.ScanShifts | src/input.cpp:1256-1328 | under either reading one pass shifts the first exact total by 65536 for each wrap up, less those down, on each axis |
| InputRefinement.ExactIffWrapsCancel | src/input.cpp:1530-1569 | delivering a message keeps the exact totals of a relative type exactly when the message is of another type or its wraps cancel on each axis |
| InputRefinement.WrapsCancelIff | src/input.cpp:1256-1328 | the wraps of an axis cancel exactly when the message and those merged into it add up to 16 bits on it |
| InputRefinement.WrapsCanCancel | src/input.cpp:1316-1328 | as written, scrolling by 20000, 20000 and -20000 becomes one message of 20000 |
| InputMotion.AccountedNext | src/input.cpp:1530-1569 | after every delivery the messages sent, with the wraps of their merges taken back, and those still queued have the exact totals of what was pushed |
| InputMotion.ExactIffAllCancel | src/input.cpp:1530-1569 | over any number of deliveries the exact totals are kept exactly when in every stretch the wraps of all merges add up to none |
| InputQueue.ExactOverRun | src/input.cpp:1530-1634 | the same for the queue of a session in every state it can be in |
| InputRefinement.WrittenTestReversesMotion | src/input.cpp:1260-1266 | as written, two movements by 20000 become one by -25536, and two by 1 are not merged |
| InputQueue.InputContext.Passthrough | src/input.cpp:1628-1634 | a message is queued and a job for it is pushed |
| InputQueue.InputContext.PassthroughNextMessage | src/input.cpp:1530-1569 | the first message leaves with what is batched into it, nothing that could have been batched into it is left before a message that ends the batch, and everything delivered so far stays unobservable |
| InputQueue.InputContext.BatchQueued | src/input.cpp:1551-1568 | the loop that erases from the queue while it walks along is the recursive pass |
| InputQueue.Drained | src/input.cpp:1530-1569 | when the jobs have run the queue is empty, and per key the delivered messages are a subsequence with the same final messages |
| InputQueue.UnbatchableKept | src/input.cpp:1520-1523 | dropping superseded messages drops none that batching does not know |
| InputQueue.OthersKept | src/input.cpp:1520-1569 | of every type that batching does not know, what was queued is, in order and unchanged, what was sent and what is still queued; after the jobs, what was sent |
| Gamepads.AllocId | src/input.cpp:60-70 | the least free id is taken, or -1 exactly when all are taken |
| Gamepads.InputSystem.ControllerArrival | src/input.cpp:870-902 | a gamepad gets the least free id unless the number is out of range, in use, refused by the platform or none is free, and then nothing changes |
| Gamepads.InputSystem.MultiController | src/input.cpp:1129-1160 | the active bit creates or removes the gamepad, and the id is freed with it |
| Gamepads.InputSystem.EndSession | src/input.cpp:125-141 | every gamepad of the session leaves a pending free, in order, and its id stays taken until then |
| Gamepads.InputSystem.RunTask | src/input.cpp:118-123 | a pending free gives the id back |
| Gamepads.NeverShared | src/input.cpp:116-141 | in every reachable state, across all sessions and pending frees, two owners have two ids, and both bits are set |
| Gamepads.FreeExactlyWhenUnowned | src/input.cpp:116-141 | a bit is clear exactly when nobody owns the id: none leaks |
| TaskPool.Pool.Push | src/task_pool.h:86-105 | an immediate item goes to the end |
| TaskPool.Pool.PushDelayed | src/task_pool.h:107-118 | a timer goes behind every timer due no earlier and before the others, which keeps the order |
| TaskPool.Pool.Cancel | src/task_pool.h:188-203 | told true exactly when the timer was there, and it alone is gone |
| TaskPool.Pool.Pop | src/task_pool.h:219-235 | immediate items first in, first out; otherwise a timer that is due and due no later than any other; nothing exactly when neither exists |
| TaskPool.Pool.Delay | src/task_pool.h:157-186 | the timer has its new time, and the order is restored exactly when the new time is not before that of the timer behind it, in particular when it is not earlier than the old one |
| TaskPool.Pool.Bubble | src/task_pool.h:176-185 | the swaps carry the timer in front of every timer due earlier and no further |
| TaskPool.SortedAfterDelay | src/task_pool.h:176-185 | where the bubbled timer ends, and when the result is sorted |
| TaskPool.HandedOutOnce | src/task_pool.h:188-235 | over any run no item is handed out twice, none after it was cancelled, and none that is still queued |
| ThreadPool.StepKeeps | src/thread_pool.h:52-129 | every step of every thread keeps the invariant of lock, queue, timers and waiting workers |
| ThreadPool.PopKeeps | src/thread_pool.h:104-105 | taking an item, outside the lock, keeps it |
| ThreadPool.PushKeeps | src/thread_pool.h:52-59 | pushing from outside or from within an item that runs leaves someone to take it |
| ThreadPool.NotifyAllKeeps | src/thread_pool.h:67-92 | a new timer or a stop reaches every waiting worker |
| ThreadPool.WorkerKeeps | src/thread_pool.h:101-129 | the steps a worker takes under the lock, and into and out of the wait, keep it |
| ThreadPool.NoLostWakeup | src/thread_pool.h:52-129 | in every interleaving: a queued item means a worker that is not blocked, no blocked worker sleeps past the next timer, none is blocked after stop, and once all have left without a push from outside after stop everything pushed has been handed out in order |
| ThreadPool.PopTakes | src/task_pool.h:219-235 | a worker gets the item queued first; without one a timer that is due and due no later than any other; and nothing exactly when neither exists, and then it waits, or leaves after a stop |
| ThreadPool.NoTimerLost | src/thread_pool.h:66-129 | in every interleaving each timer scheduled waits, was cancelled or was handed out, once; no blocked worker sleeps past any timer |
| ThreadPool.MutualExclusion | src/thread_pool.h:107-122 | no two workers hold the lock |
| ConfigFile.ToString | src/config.cpp:603-616 | the loop gives the text without its comments, which `CommentsGone` describes |
| ConfigFile.CommentsGone | src/config.cpp:603-616 | a character of the range stays exactly when there is no '#' at or before it on its line within the range |
| ConfigFile.SkipList | src/config.cpp:618-633 | the loop stops behind the bracket that closes the list, or at the end |
| ConfigFile.ParseOption | src/config.cpp:635-676 | where the line ends and the binding found on it, for every text; `LineLocated` says what these are for well-formed lines |
| ConfigFile.ParseConfig | src/config.cpp:678-699 | the loop ends on every text, and its result is the fold over the options found; `FirstWins` says what that is for well-formed texts |
| ConfigFile.SaveConfig | src/confighttp.cpp:1056-1068 | the loop prints one line for each item with a value, in order |
| ConfigFile.LineLocated | src/config.cpp:635-676 | at the start of a well-formed line, with indent, blanks, comments and any line end, the parser finds exactly its binding, and goes on at the next line |
| ConfigFile.ListLocated | src/config.cpp:657-669 | a bracketed value, possibly over several lines with comments, is found up to the bracket that closes it, or to the end of the text when none does |
| ConfigFile.ScalarLocated | src/config.cpp:635-676 | a scalar value is found from its first character to the end of its line |
| ConfigFile.ScalarBound | src/config.cpp:603-676 | its binding is the key and the value up to a trailing comment, blanks before it included |
| ConfigFile.ListBound | src/config.cpp:603-676 | the binding of a list is its text without the characters in comments |
| ConfigFile.IdleLocated | src/config.cpp:635-655 | a line without '=' before a comment, with nothing before '=' or with nothing behind it binds nothing |
| ConfigFile.ParsedText | src/config.cpp:678-699 | every text of well-formed lines, with indents, comments and either line ending, parses to its bindings |
| ConfigFile.FirstWins | src/config.cpp:678-699 | in what such a text parses to, each name set has the value of the first line that sets it, and nothing else is bound |
| ConfigFile.CommentBehindList | src/config.cpp:657-690 | a '#' right behind the bracket of a list starts no comment: the setting behind it counts |
| ConfigFile.RoundTrip | src/confighttp.cpp:1056-1068 | parsing what was printed gives every item that has a value, with that value, and nothing else |
| Pairing.StepKeeps | src/nvhttp.cpp:588-655 | every request keeps every live session at the phase its story tells, holding that phase's key, secret or hash, and authorises only who has earned it |
| Pairing.OnlyPairedAreAuthorized | src/nvhttp.cpp:467-521 | over every interleaving of requests for any number of sessions, each authorised device stands at the end of a session of its own, ended by no other device, that was created with its certificate and went through the four phases once each and in order, with the hash equal and the signature verified |
| Pairing.EventsApart | src/nvhttp.cpp:508-521 | different authorised devices were authorised by different events, in order |
| Pairing.PhasesHold | src/nvhttp.cpp:403-444 | a live session past a phase holds what the phase made, so the checks for a missing key or secret never fire |
| Pairing.SurvivesIff | src/nvhttp.cpp:366-371 | a session survives a phase request exactly when that phase is next and not the last; otherwise it is removed |
| Pairing.PinSurvivesIff | src/nvhttp.cpp:373-395 | the PIN takes a session on exactly when it is new and its salt is long enough; it then has its key and name, waits no more, and the reply is the host's certificate |
| Pairing.AskedAgain | src/nvhttp.cpp:595-640 | a client that asks again gets a new salt and waits; phase, certificate and key stay |
| Pairing.PinFromInput | src/nvhttp.cpp:595-640 | a PIN from standard input makes asking and entering it one step with the same sessions |
| Pairing.OthersUntouched | src/nvhttp.cpp:588-704 | requests about other sessions change neither a session nor an authorisation already given |
| Pairing.SecondPhase | src/nvhttp.cpp:397-440 | a client with the same key reads the host's challenge and the hash of its own challenge out of the reply |
| Pairing.ThirdPhase | src/nvhttp.cpp:442-465 | the host learns the client's hash, and the client's checks of the host pass |
| Pairing.HonestClientPairs | src/nvhttp.cpp:366-521 | an honest client whose PIN is entered for its session ends authorised under the given name, having accepted the host, whatever requests of others come in between |
| Pairing.PinForAnother | src/nvhttp.cpp:683-685 | when the table lists another session first, the PIN leaves the client's session as it was, its next phase removes it without a reply, and nobody is authorised by that |
| PairServer.Server.GetServerCert | src/nvhttp.cpp:373-395 | the first phase on the table of sessions is its step |
| PairServer.Server.ClientChallenge | src/nvhttp.cpp:397-440 | the second phase, and its reply |
| PairServer.Server.ServerChallengeResp | src/nvhttp.cpp:442-465 | the third phase, and its reply |
| PairServer.Server.ClientPairingSecret | src/nvhttp.cpp:467-521 | the fourth phase; told true exactly when the client is authorised |
| PairServer.Server.HandlePair | src/nvhttp.cpp:590-655 | the dispatch on phrase and arguments is the step of the protocol, a missing argument included, with the reply of the phase it reaches and no other; the server stays valid |
| PairServer.Server.HandlePin | src/nvhttp.cpp:658-704 | only four digits reach a session; the case in which the session cannot go on is named exactly, and outside it the result is true exactly when a request waited for the PIN |
| PairServer.Server.AuthorizedHavePaired | src/nvhttp.cpp:467-521 | in every valid state of the server, which every handler keeps, each authorised device has paired in a session of its own |
| ProcStack.Proc.Execute | src/process.cpp:138-276 | the system is given the non-empty undo commands of what was there, last first, then the non-empty do commands up to and with the first that fails; if none does the detached commands and the main one; and on failure the undo commands of exactly those that passed, last first; an unknown app is 404 and changes nothing else |
| ProcStack.Proc.Terminate | src/process.cpp:308-353 | the system is given exactly the non-empty undo commands of the prep commands passed, last first, and the app is gone |
| ProcStack.Proc.UndoAll | src/process.cpp:315-338 | the loop runs from the position reached down to the beginning and gives the system the non-empty undo commands on its way |
| ProcStack.UndoLinesAre | src/process.cpp:315-338 | undo line j is the undo command of the prep command at the j-th of falling positions, which are those of all non-empty undo commands |
| ProcStack.DoLinesAre | src/process.cpp:201-235 | do line j is the do command of the prep command at the j-th of rising positions, which are those of all non-empty do commands |
| ProcStack.Proc.RunPrepCmd | src/process.cpp:201-235 | the do command is given to the system unless it is empty; it passes exactly when it is empty or it launched, or was refused permission for the desktop, and ended with 0; a failing one keeps its place |
| ProcStack.Proc.RunPrepCmds | src/process.cpp:201-235 | the position reached is that of the first failing command |
| ProcStack.Proc.LaunchApp | src/process.cpp:237-276 | detached commands never fail a launch, a main command that cannot be launched undoes everything |
| ProcStack.Proc.Running | src/process.cpp:278-306 | the app stays as it is exactly while something of it runs, and its undo commands are given to the system otherwise |
| ProcStack.LastInFirstOut | src/process.cpp:308-338 | over every run each undo is of the latest command that passed and was not undone, and everything passed since has been undone before |
| ProcStack.Conserved | src/process.cpp:195-338 | over every run a command passed as often as it was undone or is still to be; one that only failed is never undone |
| EnvExpand.FindMatch | src/process.cpp:391-412 | the loop finds the place where the bracket count is back at zero |
| EnvExpand.ClosingIs | src/process.cpp:391-412 | that place is the first where as many brackets closed as opened |
| EnvExpand.ParseEnvVal | src/process.cpp:414-465 | the two-cursor loop equals the recursive meaning, the exception included |
| EnvExpand.WholeText | src/process.cpp:414-465 | however a text is read as characters, escaped dollars, variables with balanced names and loose dollars, its expansion is the values of those tokens |
| EnvExpand.RefusedIff | src/process.cpp:391-412 | an expansion is refused exactly when the text is well formed up to a "$(" that never closes |
| EnvExpand.AcceptedMeaning | src/process.cpp:414-465 | every other text can be read, and expands to the values of its tokens |
| EnvExpand.DoublingProtects | src/process.cpp:450-454 | expanding a text with every dollar doubled gives the text |
| ImagePool.Pool.Pick | src/video.cpp:1349-1377 | the most recently used image that nobody holds, or else a new one; the slots stay twelve and in order of use |
| ImagePool.Pool.TryPull | src/video.cpp:1346-1389 | what is handed out was held by no one else; none exactly when every image is held and none can be added; afterwards the pool holds exactly as many images as the peak of the last three seconds |
| ImagePool.Pool.Trim | src/video.cpp:1298-1344 | trimming always reaches its target, which is the peak usage of the last three seconds, and frees the unused images of the least recent end |
| ImagePool.Pool.TrimTarget | src/video.cpp:1318-1326 | the loop finds the last recent level from the current one on |
| ImagePool.Pool.Free | src/video.cpp:1329-1340 | the loop from the least recent end frees the last unused images, as many as asked |
| ImagePool.TargetIsPeak | src/video.cpp:1311-1326 | the time stamps kept are enough to know the highest level of the last three seconds exactly |
| ImagePool.ForgettingRemembers | src/video.cpp:1341-1342 | dropping the stamps above the target loses nothing recent |
| ImagePool.FreedIs | src/video.cpp:1329-1340 | only unused images are freed, and none while a less recent unused one stays |
| ImagePool.FrontOrdered | src/video.cpp:1351-1357 | moving an image to the front keeps the slots in most recently handed out order |
| ImagePool.Pool.NeverBelow | src/video.cpp:1298-1344 | at any time there are at least as many images as at any level seen in the three seconds before |

## Left out

- Integer widths of sizes and of the packet counter: sizes are unbounded, so the numbers that wrap (RTP number, stream
  packet index, IV counters, fecInfo, timestamps) are reduced where they are written and nowhere else.
- The replacements applied to the payload of IDR frames, the computation of latency and timestamp, and statistics;
  latency and timestamp are parameters.
- FecEncode.Encode: Reed-Solomon is a pair of functions with the laws of `ReedSolomon.RsLawful`, of blocks up to 255
  shards; the arithmetic of the library, and that it refuses a larger block, are not modelled
  (`VideoFrames.PacketsWithinLimit` says when one is). The client's minimum of parity shards is a natural number.
- VideoClient.ReadsIff: every packet of the frame arrives once. Recovery of lost packets is proved of each block
  (`VideoThread.BlockRecovers`), not of the client that puts the frame together.
- Exceptions thrown by a send: a frame or audio packet is taken to be sent completely.
- The legacy control encryption with a one-byte IV, which repeats by design.
- VideoRun.SendPacedFrame: in the source the waits come between the batches; here the frame is sent first and then
  paced, batch by batch, which puts the same packets on the wire.
- Reassembly.LastPayloadCanBeTooLong: packets longer than a UDP datagram; the send fails before a client could misread
  the length.
- Pacing.RateAtAnyInstant: for a fixed block size and a clock that does not go back.
- AudioFec.AudioStream.Send: the encryption of the audio payload; a packet is the bytes put in its slot.
- Input: sending to the operating system, key repeat, shortcuts and touch-port scaling. A message has the fields
  batching looks at and one for the rest.
- `TaskPool::pop` by id, which leaves a moved-out entry behind.
- Running an item is a step without effect on the pool other than the pushes it makes itself.
- ThreadPool.NoLostWakeup: the overload of `pushDelayed` that takes a pair, which does not notify, and restarting a
  stopped pool.
- ConfigFile.RoundTrip: the JSON parser and the order of its items; keys are distinct, and values without a comment
  sign that are either a single line not starting with a blank or a bracket, or a balanced list.
- ConfigFile.ParsedText: lines that end in a carriage return alone, which takes the character behind it along.
- Config option tables, enum conversions and nested lists.
- Pairing: HTTP, XML and status messages; hexadecimal decoding of arguments is part of the functions that use them;
  storing the device list on disk.
- PairServer.Server.HandlePin: when the session cannot go on (`dangling`), the source erases it and then writes
  through its reference to it. The model ends with the session removed and promises nothing about the result.
- Nothing is claimed about a client with another PIN, which would need assumptions about the strength of the
  cryptography.
- Searching working directories, environment variables, display settings and output redirection of apps; replacing the
  app list while an app runs.
- EnvExpand.ParseEnvVal: the case-insensitive look-up on Windows.
- ImagePool.Pool.TryPull: the loop that waits while the pool is full is a sequence of these calls with releases in
  between; reinitialising the display, which empties the pool, is a new pool.
- FFmpeg and NVENC sessions, display devices, UPnP, tray, logging and HTTP routing: opaque libraries or glue.
- Small helpers such as endian swaps and UUID text, which would only add easy members.
