# Network traffic monitor: a verified model

The monitor has a client that sniffs packets and sums them per flow, a server that
receives the sums over TLS and WebSocket and keeps them in a sharded store, a trust
chain that decides which binaries may run, a passkey login, and an iOS packet tunnel
that builds packets and relays TCP. This project models those parts in Dafny 4.11 and
proves what they promise about every input and every run.

`dafny verify dfyconfig.toml` checks everything.

## How the model is laid out

| files | what they hold |
|---|---|
| PacketLog, FlowTables, DayBuckets, HistoryRing, Shards, TableTrails, Snapshot, TrafficStats | the traffic store, proved against a plain log of events |
| WsFraming, FrameReader, WsServerStream | WebSocket frames in both directions, proved against decoders that read whole frames |
| Decimals, DataLine, Ingest, RecvBuffer, FlowTableClient, FlushSize, EndToEnd, Delivery | the path from the client's flow table into the store and its reports |
| StrictBase64, Calendar, TrustGrammar, TrustVerify | the signed update chain |
| Cbor, AuthData, Sessions, NonceStore | passkey registration data, login sessions, single-use nonces |
| Checksum, IpPackets, PacketBuilders, TcpRelay | packets of the iOS tunnel and its TCP relay |
| RangeLookup, AdaptiveInterval | country lookup by address, and the flush interval's controller |
| Common | integer widths, the option type, lexicographic order |

Objects whose methods update fields are classes (`Store`, `Stream`, `Reader`, `DataLoop`,
`ClientConnection`, `Host`, `SessionStore`, `NonceStore.Store`, `Relay`, `Resolver`,
`Interval`). Each carries a ghost history and a `Valid()` that says what its fields mean
in terms of that history; every method keeps `Valid()` and says what it adds to the
history. The lemmas then speak about histories alone.

What comes from outside is a parameter: hashes, signature checks, "is this a key of the
right kind" and "is this a LAN address" are arbitrary functions, as are the country and the
entity of an address at a given second; randomness and clock readings are arguments;
time-outs, chunk sizes, thread interleavings and the choice among equally small entries are
arbitrary choices.

## Main results

- **The store is its log.** After any run, every retained day of every shard holds exact
  totals and country flows of the accepted packets since the client's last reset; flow
  and entity tables stay within their caps and never overcount; the history rings hold
  exact counts; the retained days are the latest `windowDays` active ones
  (`Store.Valid`, kept by every method; `WindowKept`, `NeverOvercounts`, `IfacesCapped`).
- **Eviction is accounted for.** The successive states of every capped table are a run of
  the log's packets. So what a table holds and what it has evicted are together the exact
  total (`Store.EvictionsAccounted`), and with room for two entries no run of packets of
  any clients shrinks a table's largest flow (`Store.AddPacket`, `Store.OtherThreads`).
- **A snapshot is consistent while packets keep arriving.** Each key is reported as of one
  moment; its country flows are exact and add up to its total; flows and entities are
  never overcounted, and exact unless a table was full, with the times at which each flow
  was first and last seen (`Store.TakeSnapshot`).
- **Nothing is lost or invented on the way.** Whatever the batches, the other lines between
  them, mask keys, chunk sizes and time-outs, what the server parses at any time are the first
  of all flows, in order; when the stream is read to its end they are each flow of each batch
  once, with all its bytes (`Session`). Within the limit on lines per second, which is exactly
  when none is dropped (`AllPassExactlyWhen`), the store's window then gains, interface by
  interface and flow by flow, exactly the bytes observed, and never more, days that leave the
  window meanwhile included (`Connection`).
- **Text, framing and binary formats have exact inverses**, and the strict ones accept
  exactly what is printed (`PrintParse`, `StreamOfFrames`, `PrefixDecodes`,
  `ParseDelegation`, `ParseBundle`, `ParseEncode` with `ParseSound`, `ParseAuthData`).
- **Acceptance of a binary is exactly the threshold condition**, and the rollback floor
  never goes down over any run of updates and restarts (`VerifyBundleWithRoots`, `Host`).
- **Sweeps cannot be observed**: sessions and nonces answer from a history that contains
  no sweeps (`SessionStore`, `NonceStore.Store`).
- **Built packets verify and parse back** (`TcpV4Verifies` and its siblings), and the relay's
  client receives a contiguous stream, which is its own server's stream if and only if no
  earlier connection of the same key has brought bytes since (`StreamIsOwnExactlyWhen`).
- **Lookup in ranges of any shape finds every held address** if and only if the sorted
  table has no shadow, a condition on neighbours (`EveryHeldFoundExactlyWhen`).

Promises that the code does not keep everywhere, each with an input that shows it and the
exact condition under which it does hold:

- The minute history lists an empty bucket for minute 0 when fewer minutes have passed
  since the epoch than were asked for and nothing happened in that minute
  (`QuietMinuteListed`, `MinuteHistoryExactlyWhen`).
- The hourly history leaves out hour 0, which the ring takes for a slot not yet written
  (`FirstHourMissed`, `HourHistoryExactlyWhen`).
- A flow table with a cap of one entry can lose its largest flow (`LargestLostAtCapOne`); no
  run loses it if and only if the cap is at least two (`LargestKeptExactlyWhen`).
- The IPv4 UDP builder's guard admits 20 payload sizes on which a 16-bit conversion ends
  the process (`ReplyV4DeliversExactlyWhen`).
- A UDP checksum that computes to zero is sent as zero, which RFC 768 reserves for "no
  checksum" (`ZeroFieldSent`, `UdpZeroFieldExactlyWhen`); over IPv6 the receiver must
  discard such a datagram, RFC 8200 section 8.1 (`ZeroFieldSentV6`,
  `UdpV6ZeroFieldExactlyWhen`).
- The flush interval can stop up to 3 ms below its target (`StopsShort`); it reaches it if
  and only if it starts there or above (`ReachedExactlyWhen`).
- Range lookup misses an address that only an outer one of two nested ranges holds
  (`NestedMissed`, `EveryHeldFoundExactlyWhen`).
- A client that opens a relay key a second time, by a repeated SYN for instance, can be
  given bytes of the first connection, or lose the second flow to its failure: the receive
  callback looks only at the key (`ReopenedKey`). A callback leaves the flows of other
  connections alone if and only if its key is not open under another one
  (`Relay.OnServerData`).
- A flush whose frame is longer than 2 MiB is not written, and what was drained is lost.
  `ManyFlowsLost` gives the packets of such a flush (up to 1,000,000 flows may be configured,
  src/client_config_parse.hpp:150-156), and `LargeTable` says that 299,592 flows of any kind
  are too many; `SendFlush` says exactly which tables are sent, and `FitsInAnyOrder` that this
  does not depend on the order of printing.
- A flow of 2^32 bytes or more between two flushes is printed by the client and dropped by
  the server (`FourGigabytesLost`, `LargeFlowLost`); `PrintParse` says exactly which flows
  arrive.
- A connection can be dropped although the client sends nothing but short lines: a full chunk
  behind an unfinished line can pass the buffer's limit. At the least limit that the server
  accepts, 4096 bytes (src/server_core.cpp:1103), any 586 flows can be dropped
  (`LeastLimitDrops`); no flows ever are if and only if the limit has room for a chunk and the
  longest line, 4267 bytes by default (`UndroppedExactlyWhen`).

The comment in src/ntm_types.hpp:605 speaks of one mutex for the history rings; the code
has one per shard, and the model follows the code. The overflow branch at
src/ntm_types.hpp:773-785 uses references into entries that the reset has just erased; the
model looks the entries up again.

## Model

| member | source | states |
|---|---|---|
| PacketLog.DayIndex | src/ntm_types.hpp:731 | the day index is the calendar day of the second, also before 1970, although C++ division truncates |
| PacketLog.PrefixSelectsClient | src/ntm_types.hpp:842-850 | for keys with a bar and clients without one, the prefix test selects exactly that client's keys |
| PacketLog.KeyInjective | src/ntm_types.hpp:732 | two store keys are equal only for equal client and equal interface |
| PacketLog.OtherClient | src/ntm_types.hpp:1007-1045 | an event of one client changes no answer about any other client |
| PacketLog.PacketCounts | src/ntm_types.hpp:731-798 | a packet adds itself to its interface's total of its day and to the pairs of its addresses, countries and entities, source first, and to no other |
| PacketLog.SplitWithinTotal | src/ntm_types.hpp:791-798 | a pair's traffic never exceeds its interface's total of the day, and is present exactly when the pair was seen |
| PacketLog.ActiveDaysOrdered | src/ntm_types.hpp:748-749 | under a clock that never runs back, a shard's days are strictly increasing and are exactly the days it accepted a packet on |
| PacketLog.LastByRank | src/ntm_types.hpp:800-801 | an active day is in the window exactly when fewer than n active days are later |
| PacketLog.DataIfacesRegistered | src/ntm_types.hpp:738-746 | a client has data only on registered interfaces, save one after an overflow |
| FlowTables.MinElement | src/ntm_types.hpp:757-758 | the evicted entry has the least bytes of the table |
| FlowTables.BumpConserves | src/ntm_types.hpp:755-769 | what stays and what leaves add up to what was there and the packet; one least entry leaves exactly if the table is full and the pair new, else none |
| FlowTables.EvictionConserves | src/ntm_types.hpp:755-761 | over any run, what is tracked and the entries taken out at its steps add up to what was counted, and the table stays within its cap |
| FlowTables.LargestNeverShrinks | src/ntm_types.hpp:755-761 | over any run with a cap of at least two, some flow at least as large as any once tracked is tracked ever after |
| FlowTables.LargestLostAtCapOne | src/ntm_types.hpp:755-761 | on a run of two packets a table with a cap of one loses the larger flow and keeps the smaller |
| FlowTables.LargestKeptExactlyWhen | src/ntm_types.hpp:755-761 | on every run, at every later moment, some entry is as large as any once tracked, if and only if the cap is at least two |
| FlowTables.TrackedStep | src/ntm_types.hpp:762-771 | counting with eviction never makes an entry exceed the log, and is exact while the pairs seen fit the cap |
| TableTrails.OffersTotal | src/ntm_types.hpp:791-798 | the packets offered to a table since its client's last reset are the traffic of its key and day |
| TableTrails.EvictionAccounted | src/ntm_types.hpp:753-771 | in any right bucket, what a capped table holds and what its own trail has evicted add up to the exact total |
| TableTrails.TrailsKeepLargest | src/ntm_types.hpp:755-768 | between two moments without a reset of the client, a table with room for two entries has a flow as large as any it tracked |
| DayBuckets.CountedSeen | src/ntm_types.hpp:787-789 | an entry was first and last seen with the first and last of the packets it counts, which are its pair's latest |
| DayBuckets.EraseMatching | src/ntm_types.hpp:1012-1018 | the erase loop removes exactly the entries with the prefix |
| DayBuckets.BucketReset | src/ntm_types.hpp:1010-1040 | erasing by prefix makes a bucket say exactly what the log says after the client's reset |
| DayBuckets.BucketCounted | src/ntm_types.hpp:787-798 | counting a packet in today's bucket keeps the bucket right for every key |
| DayBuckets.OverflowIsTheTotals | src/ntm_types.hpp:773-776 | the last three overflow tests each imply the first, since the total is the largest of the four counters |
| HistoryRing.RecordStep | src/ntm_types.hpp:811-821 | recording keeps every slot exact for the latest busy minute or hour among those that share it |
| HistoryRing.SlotIsSpan | src/ntm_types.hpp:806-807 | what is recorded for a minute or hour after the first is what came from its first second on and before the next one's |
| HistoryRing.ReadMinutes | src/ntm_types.hpp:957-971 | reading n slots gives the busy ones of the last n minutes, after a possible phantom for minute 0 |
| HistoryRing.MinuteHistoryExactlyWhen | src/ntm_types.hpp:964-971 | the minute history is ascending; it is exactly the busy minutes if and only if n minutes have passed since the epoch or minute 0 had traffic |
| HistoryRing.QuietMinuteListed | src/ntm_types.hpp:966-968 | a log and a window for which a quiet minute 0 is listed |
| HistoryRing.BucketIsExact | src/ntm_types.hpp:814-815 | a bucket's counts are the true sums if and only if these fit in 64 bits |
| HistoryRing.SortByTime | src/ntm_types.hpp:984-986 | sorting gives the same buckets in strictly ascending order |
| HistoryRing.ReadHours | src/ntm_types.hpp:977-987 | the hourly history is ascending and holds exactly the latest busy hour of each slot but hour 0, with its exact counts |
| HistoryRing.RecentHoursReported | src/ntm_types.hpp:978-980 | a busy hour of the last 168 is reported if and only if it is not hour 0 |
| HistoryRing.HourHistoryExactlyWhen | src/ntm_types.hpp:980 | the hourly history has the latest busy hour of every slot if and only if hour 0 is none of them |
| HistoryRing.FirstHourMissed | src/ntm_types.hpp:980 | a busy hour 0 that is not reported |
| Shards.ResetClientInShard | src/ntm_types.hpp:1007-1045 | a reset erases the client's entries in every bucket and its registrations, rejections and history, and nothing else |
| Shards.ShardReset | src/ntm_types.hpp:1007-1045 | after a reset the shard is right for the log with the purge in it |
| Shards.OtherShard | src/ntm_types.hpp:725-727 | an event of one shard leaves all others right |
| Shards.DayOpens | src/ntm_types.hpp:748-751 | opening the day of a packet never repeats a day and misses none of the window |
| Shards.CloseOldDays | src/ntm_types.hpp:800-801 | dropping from the front leaves the last windowDays buckets |
| Snapshot.VisitBuckets | src/ntm_types.hpp:880-924 | adding the buckets of a shard to a report adds, in all four tables, key by key and pair by pair, exactly their sums modulo 2^64, and joins the times flows were seen |
| Snapshot.TrackedFromLog | src/ntm_types.hpp:888-894 | summed over any days, tables with evictions never exceed a pair's true traffic |
| Snapshot.SeenFromLog | src/ntm_types.hpp:895-904 | the joined times are packet times of the flow, and its very first and last if nothing was evicted |
| Snapshot.TablesAddUp | src/ntm_types.hpp:907-915 | summed over any buckets, the country table adds up to the total |
| Snapshot.SumOfWrapped | src/ntm_types.hpp:911-913 | adding wrapped counters and wrapping the sum agree |
| TrafficStats.CountOnShard | src/ntm_types.hpp:745-822 | the accepting part of addPacket, overflow included, makes the shard right for the log with the packet in it |
| TrafficStats.FindsOverflow | src/ntm_types.hpp:773-776 | an overflow is found exactly when, with the packet in it, the interface's true total of the day would be 2^64 packets or bytes or more |
| TrafficStats.WindowKept | src/ntm_types.hpp:800-801 | a shard's retained days are strictly increasing, at most windowDays, and exactly the most recent active ones |
| TrafficStats.NeverOvercounts | src/ntm_types.hpp:753-771 | in each bucket the capped tables are within their caps, no entry exceeds its true traffic, tracked sums are within the exact total, and country flows add up to it |
| TrafficStats.IfacesCapped | src/ntm_types.hpp:738-746 | no client has more than maxIfaces interfaces, and without an overflow it has data on no others |
| TrafficStats.Store.constructor | src/ntm_types.hpp:685-694 | an empty store is right for the empty log at any time; settings are kept, and zero ones fall back to usable ones |
| TrafficStats.Store.AddPacket | src/ntm_types.hpp:715-825 | each call logs a rejection, an acceptance, or a reset followed by an acceptance, decided by the log alone; all 16 shards stay right, tables go on from where they were, and no largest flow shrinks |
| TrafficStats.Store.OtherThreads | src/ntm_types.hpp:715-859 | the same over any run of packets and purges |
| TrafficStats.Store.EvictionsAccounted | src/ntm_types.hpp:753-771 | at any time, in every retained day, held plus evicted is the exact total of the log |
| TrafficStats.Store.GetIfaceRejectCount | src/ntm_types.hpp:828-834 | the count is the number of rejections since the client's last reset |
| TrafficStats.Store.PurgeClient | src/ntm_types.hpp:838-859 | a purge is logged, and found says whether the window had traffic of the client |
| TrafficStats.Store.SnapshotHistory | src/ntm_types.hpp:941-990 | the history answers are those of the log: but for time 0, a bucket counts exactly the packets of its 60 or 3600 seconds, and every such span with traffic in the time asked for is listed |
| TrafficStats.Store.TakeSnapshot | src/ntm_types.hpp:861-937 | with any packets and purges between shard visits, every key is reported as of one moment of the run, moments in order: total and country flows exact and adding up, flows and entities never overcounted and exact unless a table was full, with when they were seen; and the window starts with the earliest day retained |
| WsFraming.BuildClientFrame | src/client_websocket.hpp:51-91 | the pushed bytes are the masked RFC 6455 frame of the payload, in all three length forms |
| Bytes.XorBit | src/client_websocket.hpp:86-89 | exclusive or, bit by bit |
| WsFraming.WriteFrame | src/server_core.cpp:558-578 | the bytes written are the unmasked frame of the payload |
| WsFraming.HeadOfFrame | src/server_core.cpp:650-666 | a frame's head read back gives its opcode, mask bit and length in all three forms |
| WsFraming.MaskTwice | src/server_core.cpp:676-680 | masking twice with one key is the identity |
| WsFraming.ZerosMasked | src/client_websocket.hpp:86-89 | zeros are masked to the key, again and again from its first byte |
| WsFraming.RfcControlFrames | src/server_core.cpp:558-578 | the ping and the masked pong of RFC 6455 section 5.7 |
| WsFraming.RfcLongFrames | src/server_core.cpp:558-578 | the frames of 256 bytes and 64 KiB of RFC 6455 section 5.7 |
| FrameReader.MachineIsDecoder | src/client_websocket.hpp:234-298 | on every byte stream, well-formed or not, the byte-at-a-time machine emits what a decoder of whole frames reads |
| FrameReader.RunConcat | src/client_websocket.hpp:176-180 | feeding in pieces is feeding at once |
| FrameReader.PrefixDecodes | src/client_websocket.hpp:289-297 | of frames with control frames between them, any prefix decodes to a prefix of the data payloads, and all to all |
| FrameReader.Reader.ProcessByte | src/client_websocket.hpp:234-298 | one byte moves the fields as the machine steps and buffers what it emits |
| FrameReader.Reader.Feed | src/client_websocket.hpp:176-180 | taken bytes followed by buffered ones stay the decoding of everything fed |
| FrameReader.Reader.Take | src/client_websocket.hpp:186-203 | takes the first bytes of what is pending and keeps the rest; the buffer is at most twice what is pending |
| FrameReader.Reader.Lossless | src/client_websocket.hpp:183 | at any moment taken bytes and buffered bytes are together what the whole-frame decoder reads |
| WsServerStream.ParseClientFrame | src/server_core.cpp:619-690 | unframing gives back opcode and payload for any key and stops exactly at the frame's end |
| WsServerStream.StreamOfFrames | src/server_core.cpp:682-689 | client frames with pings and pongs between them read as the concatenation of their payloads |
| WsServerStream.Stream.FillBuf | src/server_core.cpp:619-690 | appends exactly the next data payload; a time-out loses nothing; otherwise the stream has ended |
| WsServerStream.Stream.ReadExact | src/server_core.cpp:538-555 | reads exactly the next n payload bytes over any number of frames |
| WsServerStream.Stream.Recv | src/server_core.cpp:582-594 | returns what is buffered at once, else the next payload bytes, 0 only after a time-out that lost nothing, or -1 at the end |
| DataLine.ParseDataLine | src/proto_client_server.hpp:161-213 | the pointer loops accept and return what the token-wise reading of the line says |
| DataLine.StrToUllReads | src/proto_client_server.hpp:197-205 | white space, a sign, digits and anything else are read as C's strtoull in base 10 reads them, saturating and negating modulo 2^64 |
| DataLine.PrintedFits | src/client_impl.cpp:578-585 | a printed line always fits the 256-byte buffer |
| DataLine.PrintParse | src/proto_client_server.hpp:161-213 | printing and parsing give back a flow if and only if its labels are non-empty, separator-free, within both limits, and its bytes fit 32 bits |
| DataLine.LargeFlowLost | src/proto_client_server.hpp:201-205 | a printed flow of 2^32 bytes or more is refused, whatever its labels and the limits |
| DataLine.FourGigabytesLost | src/proto_client_server.hpp:201-205 | a flow of 2^32 bytes is refused that arrives with one byte less |
| Ingest.SplitAppend | src/server_core.cpp:1356-1367 | where the stream is cut makes no difference to its lines |
| Ingest.AllPass | src/server_core.cpp:1441-1450 | nothing is dropped as long as no second sees more lines than the limit |
| Ingest.AllPassExactlyWhen | src/server_core.cpp:1441-1450 | under a clock that never runs back, nothing is dropped if and only if no second sees more lines than the limit |
| Ingest.DataLoop.Admit | src/server_core.cpp:1441-1468 | a line is passed on exactly if it is within its second's limit |
| Ingest.DataLoop.OnChunk | src/server_core.cpp:1356-1553 | after any chunk the buffer is the unfinished line and the parsed lines are those of everything received; false exactly when the buffer limit is passed |
| Ingest.TextParses | src/server_core.cpp:1361-1440 | whatever lines a client sends, followed by anything, they parse to the flows among them in order |
| Ingest.PrefixParses | src/server_core.cpp:1361-1440 | of any text, the lines of a first part parse to the first flows of the whole |
| RecvBuffer.RestShort | src/server_core.cpp:1358-1359 | in a stream of whole lines no unfinished line is longer than the longest of them |
| RecvBuffer.DroppedRun | src/server_core.cpp:1356-1359 | a cut that leaves no room for the next chunk does end the data loop |
| RecvBuffer.UndroppedExactlyWhen | src/server_core.cpp:1356-1359 | no deliverable flows, however cut into chunks, pass the buffer's limit, if and only if the limit has room for a chunk and the longest line |
| RecvBuffer.LeastLimitDrops | src/server_core.cpp:1100-1104 | at the least limit that the configuration accepts, any 586 flows can pass it |
| FlowTableClient.ClientConnection.AccumulateFlow | src/client_impl.cpp:148-159 | the table holds each observed flow with its bytes modulo 2^64 |
| FlowTableClient.ClientConnection.Drain | src/client_impl.cpp:566-587 | draining empties the table and prints each entry once |
| FlowTableClient.DrainConserves | src/client_impl.cpp:566-587 | of any selection of flows the drained bytes equal the observed ones if no flow passed 2^64 |
| EndToEnd.SendFlush | src/client_impl.cpp:566-587 | a flush goes out as one frame whose payload is the printed table, if and only if the frame is at most 2 MiB |
| FlushSize.FitsInAnyOrder | src/client_linux.cpp:66-68 | whether a table's flush can be written does not depend on the order in which it is printed |
| FlushSize.LargeTable | src/client_linux.cpp:66-68 | the flush of any table of 299,592 flows or more cannot be written |
| FlushSize.ManyFlowsLost | src/client_linux.cpp:66-68 | packets of so many flows, observed between two flushes, make such a table |
| EndToEnd.Pump | src/server_core.cpp:1356-1359 | moving payload in chunks of up to 4096 bytes neither loses nor repeats a byte, at time-outs either; every other read makes progress; the connection is dropped only on a text that can pass the buffer's limit |
| EndToEnd.MeaningPreserved | src/server_core.cpp:1360-1468 | flows printed among other lines, framed with control frames between, unframed, cut, split and parsed are the same flows in the same order |
| EndToEnd.AllBytesCarried | src/client_impl.cpp:566-587 | over all flushes, the bytes of any selection of flows are conserved |
| EndToEnd.Session | src/client_impl.cpp:543-718 | over a whole connection, announcements and reports between the flushes, what is parsed are the first of all flows in order, and at the stream's end every flow of every batch once, with all its bytes, whichever flows one adds up; it is not dropped if the buffer has room for a chunk behind any line sent, and else only time-outs keep it from the end |
| Delivery.WindowGrows | src/ntm_types.hpp:791-801 | over any extension of the log that neither resets nor rejects the client, what the window holds of a key or of a pair, and its traffic on the days that left, are together what it held and its accepted traffic |
| Delivery.Deliver | src/server_core.cpp:1451-1467 | what the store accepts of the client are the flows, in order, each with its interface, addresses in their order, countries and entities of these, bytes and direction, whatever other clients do meanwhile |
| Delivery.Connection | src/server_core.cpp:1356-1467 | from the first observed packet to the store, what is accepted are the flows handed over, in order, and the window gains of every interface and of every flow on it exactly the bytes observed, and in no case more, traffic of the days that left included |
| Delivery.ReportGrows | src/ntm_types.hpp:882-887 | between two snapshots a key's reported bytes change by what its window total has changed, modulo 2^64 |
| EndToEnd.ListsAsMultiset | src/client_impl.cpp:576-586 | as a multiset the drained flows are the table's entries |
| StrictBase64.B64Decode | src/trust.hpp:111-150 | accepts exactly the canonical encodings of non-empty byte strings and inverts them |
| StrictBase64.Canonical | src/trust.hpp:146-147 | a text is the encoding of bytes exactly if it decodes to them |
| Calendar.NextDayCounts | src/trust.hpp:223-231 | the closed form counts one more for each next day of the Gregorian calendar, in every year |
| Calendar.DaysCountsSteps | src/trust.hpp:223-231 | from 1970 on the closed form is the number of calendar steps from the epoch |
| Calendar.SecondsCountSteps | src/trust.hpp:258 | from 1970 on the seconds in closed form are the number of steps of the clock, by one second each, from 1970-01-01T00:00:00Z |
| Calendar.Millennium | src/trust.hpp:258 | 946,684,800 steps lead to 2000-01-01T00:00:00Z |
| Calendar.ParseTime | src/trust.hpp:234-260 | accepts exactly the formats of valid stamps from 2000 to 9999 and returns the number of seconds that lead there from the epoch |
| Calendar.SecondsIncrease | src/trust.hpp:258 | seconds are strictly increasing and injective on valid stamps |
| Calendar.TextOrderIsTimeOrder | src/trust.hpp:234-260 | accepted timestamps compare as text exactly as in time |
| TrustGrammar.SplitLines | src/trust.hpp:153-170 | accepts exactly texts of non-empty clean lines and returns those |
| TrustGrammar.SplitFields | src/trust.hpp:181-195 | splits into exactly n non-empty fields or says that no such cut exists |
| TrustGrammar.ParseVersion | src/trust.hpp:210-220 | accepts exactly the decimal notations of 1 to 10^18 - 1 |
| TrustGrammar.ParseDelegation | src/trust.hpp:279-329 | accepts exactly the printed forms of valid delegations and inverts printing |
| TrustGrammar.DelegationCanonical | src/trust.hpp:279-329 | no two delegations have one text |
| TrustGrammar.ParseBundle | src/trust.hpp:343-403 | accepts exactly the printed forms of valid bundles and inverts printing |
| TrustGrammar.BundleCanonical | src/trust.hpp:343-403 | no two bundles have the same bytes |
| TrustVerify.CountRootSigs | src/trust.hpp:424-435 | the count is the number of distinct roots that signed |
| TrustVerify.VerifyBundleWithRoots | src/trust.hpp:412-482 | accepts, with this result, exactly when at least threshold distinct roots signed and the expiry, floor, key, platform and signature checks hold |
| TrustVerify.OneResult | src/trust.hpp:477-480 | whatever the policies, one binary and bundle have one result |
| TrustVerify.AcceptIsStartupAndMore | src/trust.hpp:510-516 | what an update accepts is exactly what startup accepts, unexpired and not below the floor |
| TrustVerify.Host.Start | src/client_main.cpp:36-52 | once a process has run, every restart passes the check and its floor is not lower |
| TrustVerify.Host.Update | src/updater.cpp:822-833 | a pair is installed exactly if it verifies, is unexpired and not below the floor |
| Cbor.ReadAdditional | src/webauthn.cpp:69-90 | reads the argument of a head in each of its widths or fails |
| Cbor.Parse | src/webauthn.cpp:92-140 | terminates on every input, returns the meaning of the item at start, and ends after it and within the data |
| Cbor.ParseEncode | src/webauthn.cpp:92-140 | every item within the limits, in any of its encodings and followed by anything, is read back and exactly consumed |
| Cbor.ParseSound | src/webauthn.cpp:92-140 | whatever is accepted is the encoding of an item within the limits |
| Base64Url.ToBase64url | src/webauthn.cpp:155-175 | the loops compute the unpadded URL encoding |
| Base64Url.FromBase64url | src/webauthn.cpp:182-201 | the 32-bit accumulator loses nothing that is ever used |
| Base64Url.RoundTrip | src/webauthn.cpp:155-201 | what the encoder writes the decoder reads back |
| AuthData.ExtractCoseP256 | src/webauthn.cpp:331-359 | finds x and y exactly if the data starts with an ES256 key on P-256 |
| AuthData.ParseAuthData | src/webauthn.cpp:361-401 | returns a credential exactly for assembled authenticator data, with its id, coordinates and count; data without one gives its count |
| AuthData.AssembledOnce | src/webauthn.cpp:361-401 | the bytes determine id, coordinates and count |
| AuthData.StandardAssembled | src/webauthn.cpp:386-398 | data assembled around a standard key, with any extensions behind it, is accepted |
| Sessions.SessionStore.Issue | src/webauthn.cpp:561-565 | issuing adds an issue to the history |
| Sessions.SessionStore.CreateIdentitySession | src/webauthn.cpp:594-603 | the sweep before issuing keeps exactly the live sessions and leaves no trace |
| Sessions.SessionStore.IsValidSession | src/webauthn.cpp:572-586 | true exactly if issued, not invalidated, within the absolute limit, and never unused beyond the idle limit |
| Sessions.SessionStore.IsAdminSession | src/webauthn.cpp:605-619 | true exactly for a live session issued to an administrator |
| Sessions.SessionStore.GetSessionInfo | src/webauthn.cpp:621-635 | a live session's issue, and nothing for a dead one |
| Sessions.SessionStore.InvalidateSession | src/webauthn.cpp:588-592 | an invalidation is added to the history |
| Sessions.SessionStore.SweepExpired | src/webauthn.cpp:855-870 | a sweep keeps exactly the live sessions and adds nothing to the history, so no later answer depends on it |
| Sessions.DeadStaysDead | src/webauthn.cpp:572-586 | only a new issue makes a dead token live |
| NonceStore.Store.PurgeExpired | src/server_upgrade.hpp:373-383 | purging erases what has expired and leaves the history alone |
| NonceStore.Store.Generate | src/server_upgrade.hpp:316-327 | generating adds an issue to the history, or nothing without randomness, and drops what has expired |
| NonceStore.Store.Consume | src/server_upgrade.hpp:332-342 | succeeds exactly for a nonce issued, not used since, and not expired |
| NonceStore.OncePerIssue | src/server_upgrade.hpp:332-342 | each redemption has an issue of its own before it, and beats its expiry |
| NonceStore.RedeemedAtMostIssued | src/server_upgrade.hpp:332-342 | no nonce is redeemed more often than issued |
| Checksum.FoldKeeps | ios/NTMClient/Shared/IPPacket.swift:456 | folding keeps the sum modulo 65535 and makes only zero zero |
| Checksum.OnesComplementChecksum | ios/NTMClient/Shared/IPPacket.swift:445-458 | the 32-bit additions never trap, the fold ends, and the result is the RFC 1071 checksum |
| Checksum.FilledVerifies | ios/NTMClient/Shared/IPPacket.swift:226-228 | writing the checksum into the zeroed word makes the whole verify |
| IpPackets.WalkIPv6ExtHeaders | ios/NTMClient/Shared/IPPacket.swift:125-144 | the loop ends on every input and computes the walk |
| IpPackets.WalkChain | ios/NTMClient/Shared/IPPacket.swift:125-144 | behind any chain of RFC 8200 extension headers the walk reaches the transport header |
| IpPackets.TcpV4Fields | ios/NTMClient/Shared/IPPacket.swift:199-260 | a TCP packet over IPv4 has its fields where RFC 791 and RFC 9293 put them |
| IpPackets.UdpV4Fields | ios/NTMClient/Shared/IPPacket.swift:265-318 | a UDP packet over IPv4 has its fields where RFC 791 and RFC 768 put them |
| IpPackets.TcpV6Fields | ios/NTMClient/Shared/IPPacket.swift:322-377 | a TCP packet over IPv6 has its fields where RFC 8200 and RFC 9293 put them |
| IpPackets.UdpV6Fields | ios/NTMClient/Shared/IPPacket.swift:380-428 | a UDP packet over IPv6 has its fields where RFC 8200 and RFC 768 put them |
| IpPackets.Ipv4Accepted | ios/NTMClient/Shared/IPPacket.swift:43-72 | an IPv4 packet is read, options or not, if and only if it is as long as its header says and that is at least five words |
| IpPackets.Ipv6Accepted | ios/NTMClient/Shared/IPPacket.swift:76-108 | an IPv6 packet is read if and only if it has a whole fixed header of version 6, up to its transport header |
| IpPackets.UdpRead | ios/NTMClient/Shared/IPPacket.swift:57-65 | UDP's ports are read, and its payload up to its length or the packet's end; what is not UDP has none |
| IpPackets.TcpRead | ios/NTMClient/Shared/IPPacket.swift:169-194 | a TCP header is read, options or not, if and only if it is there in full and of at least five words, and its payload ends with the packet |
| IpPackets.TcpV4Verifies | ios/NTMClient/Shared/IPPacket.swift:199-260 | header and pseudo-header sums of a built TCP packet verify |
| IpPackets.UdpV4Verifies | ios/NTMClient/Shared/IPPacket.swift:265-318 | header and pseudo-header sums of a built UDP packet verify |
| IpPackets.TcpV6Verifies | ios/NTMClient/Shared/IPPacket.swift:322-377 | the pseudo-header sum of a built IPv6 TCP packet verifies |
| IpPackets.UdpV6Verifies | ios/NTMClient/Shared/IPPacket.swift:380-428 | the pseudo-header sum of a built IPv6 UDP packet verifies |
| IpPackets.TcpV4Parses | ios/NTMClient/Shared/IPPacket.swift:43-72 | parsing a built TCP packet, padded or not, gives back every field and the payload |
| IpPackets.UdpV4Parses | ios/NTMClient/Shared/IPPacket.swift:43-72 | the same for UDP |
| IpPackets.TcpV6Parses | ios/NTMClient/Shared/IPPacket.swift:169-194 | the same for TCP over IPv6 |
| IpPackets.UdpV6Parses | ios/NTMClient/Shared/IPPacket.swift:76-108 | the same for UDP over IPv6 |
| PacketBuilders.SealAt | ios/NTMClient/Shared/IPPacket.swift:244-257 | summing a segment in place and filling the word seals it and touches nothing else |
| PacketBuilders.BuildTCPv4Packet | ios/NTMClient/Shared/IPPacket.swift:199-260 | the filled buffer is the packet, nil exactly for bad addresses or more than 65495 bytes |
| PacketBuilders.BuildTCPv6Packet | ios/NTMClient/Shared/IPPacket.swift:322-377 | the same over IPv6 |
| PacketBuilders.BuildIPv4UDPReply | ios/NTMClient/Shared/IPPacket.swift:265-318 | the packet, nil, or a trap, as the lengths decide |
| PacketBuilders.BuildIPv6UDPReply | ios/NTMClient/Shared/IPPacket.swift:380-428 | the filled buffer is the packet, nil exactly for bad addresses or more than 65527 bytes |
| PacketBuilders.ReplyV4DeliversExactlyWhen | ios/NTMClient/Shared/IPPacket.swift:271-274 | of what the guard admits, exactly payloads of at most 65507 bytes are delivered |
| PacketBuilders.UdpZeroFieldExactlyWhen | ios/NTMClient/Shared/IPPacket.swift:313-315 | the checksum field is zero exactly when the word sum is a positive multiple of 65535 |
| PacketBuilders.ZeroFieldSent | ios/NTMClient/Shared/IPPacket.swift:313-315 | a datagram sent with a zero checksum field |
| PacketBuilders.UdpV6ZeroFieldExactlyWhen | ios/NTMClient/Shared/IPPacket.swift:423-425 | over IPv6 too the field is zero exactly when the word sum is a positive multiple of 65535 |
| PacketBuilders.ZeroFieldSentV6 | ios/NTMClient/Shared/IPPacket.swift:423-425 | an IPv6 datagram sent with a zero checksum field |
| TcpRelay.ControlBits | ios/NTMClient/Shared/IPPacket.swift:159-162 | the tests of FIN, SYN, RST and ACK look at the bits of RFC 9293 |
| TcpRelay.ReadsBack | ios/NTMClient/PacketTunnel/TCPRelay.swift:181-204 | a packet the relay builds is read as the segment sent, for the client it is for |
| TcpRelay.WroteOne | ios/NTMClient/PacketTunnel/TCPRelay.swift:181-204 | a written segment reaches its own client's receiver and no other |
| TcpRelay.Relay.SendToClient | ios/NTMClient/PacketTunnel/TCPRelay.swift:181-204 | up to 65495 bytes exactly one packet is written, which is read as this segment; beyond it none |
| TcpRelay.Relay.HandlePacket | ios/NTMClient/PacketTunnel/TCPRelay.swift:27-79 | a SYN is answered by one SYN-ACK of its number plus one, data and FIN by one ACK of all that has come, anything else by nothing; no client's received stream changes except that a SYN starts its own anew |
| TcpRelay.Relay.OpenFlow | ios/NTMClient/PacketTunnel/TCPRelay.swift:100-131 | one SYN-ACK is written, with the random number and the SYN's number plus one modulo 2^32; a client that opens only on such a segment then expects the number after the random one, on a new connection |
| TcpRelay.Relay.OnServerData | ios/NTMClient/PacketTunnel/TCPRelay.swift:143-178 | what a receive returns goes, contiguously, to the client of the flow open under its key, in one segment, followed by a reset if the receive failed or else by a FIN if the stream has ended; flows of other connections are left alone if and only if none of them has that key |
| TcpRelay.Relay.StreamIsOwnExactlyWhen | ios/NTMClient/PacketTunnel/TCPRelay.swift:143-158 | a client of an open flow has exactly what its own server sent if and only if no other connection has brought bytes since the flow was opened |
| TcpRelay.Relay.OpenedOnceIsOwn | ios/NTMClient/PacketTunnel/TCPRelay.swift:100-178 | a key opened once has its own server's bytes, and the relay's next number is the one expected |
| TcpRelay.ReopenedKey | ios/NTMClient/PacketTunnel/TCPRelay.swift:102-146 | a run on which a client is given bytes of the connection it had before, or loses its flow to it |
| TcpRelay.Relay.Sweep | ios/NTMClient/PacketTunnel/TCPRelay.swift:83-90 | exactly the idle flows are dropped |
| RangeLookup.LexIsNumeric | src/ip_range_resolver.hpp:196-204 | comparing 16 bytes from the front is comparing 128-bit numbers |
| RangeLookup.UpperBound | src/ip_range_resolver.hpp:189-190 | the search finds the first element the value is below |
| RangeLookup.Resolver.Finalize | src/ip_range_resolver.hpp:316-324 | both lists end ascending and keep their elements |
| RangeLookup.Resolver.LookupV4 | src/ip_range_resolver.hpp:187-194 | in any ranges a latest-starting one that holds the address; in disjoint ranges the unique one that holds it, none exactly if none does; in unshadowed ones too, none exactly if none does |
| RangeLookup.Resolver.LookupV6 | src/ip_range_resolver.hpp:196-205 | the same over 128-bit numbers |
| RangeLookup.Resolver.CountryFor | src/ip_range_resolver.hpp:109-123 | the country of the range that holds the address, "??" if none does or if that begins with a question mark |
| RangeLookup.EveryHeldFoundExactlyWhen | src/ip_range_resolver.hpp:187-194 | among sorted ranges of any shape, None is said exactly for the addresses no range holds, if and only if no range reaches past a later one behind which a gap begins |
| RangeLookup.EveryHeldV6FoundExactlyWhen | src/ip_range_resolver.hpp:196-205 | the same over all 128-bit addresses |
| RangeLookup.NestedMissed | src/ip_range_resolver.hpp:187-194 | behind an inner range the outer one is missed |
| AdaptiveInterval.DesiredIs | src/flow_aggregator.hpp:92-104 | the target is the longest interval within the limits for which the target rate allows no more lines than the flush had, and the longest of all for an idle flush |
| AdaptiveInterval.StepsCloser | src/flow_aggregator.hpp:87-111 | an update moves toward the target without passing it, strictly unless at it or at most 3 ms below |
| AdaptiveInterval.Settles | src/flow_aggregator.hpp:87-111 | under a constant load the interval settles on the target from above and within 3 ms of it from below, in no more updates than milliseconds |
| AdaptiveInterval.SettlesGeometrically | src/flow_aggregator.hpp:87-111 | after n updates under a constant load at most (7/10)^n of the distance from the settled range is left, and none as soon as that is below 1 ms |
| AdaptiveInterval.StopsShort | src/flow_aggregator.hpp:106-110 | 997 ms never moves to a target of 1000 |
| AdaptiveInterval.ReachedExactlyWhen | src/flow_aggregator.hpp:87-111 | under a constant load the target is ever reached if and only if the interval starts there or above |
| AdaptiveInterval.Interval.Update | src/flow_aggregator.hpp:87-111 | the interval becomes seven tenths of what it was and three of the target, rounded down, within its limits; the product fits 64 bits |

## Left out

- `getAggregationWindowStart`: the same minimum over retained days that a snapshot returns.
- Interleavings below a mutex; between two locks any packets and purges may happen.
- zlib on the wire (src/zlib_stream.hpp), which is lossless; TLS, sockets, files and HTTP.
- What the server does with lines other than D-lines, and how it finds the country and entity labels that it attaches before calling the store.
- Empty frames that end the server's stream are in the model (`NextData`), but clients never send them and `StreamOfFrames` is about frames with data.
- IP addresses as text: they are 4 or 16 bytes, or a number, here; so is the relay over IPv6, whose address text does not parse back.
- What the relay sends to the server; `cancelAll`, which drops every flow. Of connections, the relay model keeps their number, their key and what they handed over; cancelling one is taken to promise nothing about its outstanding receive.
- Pending registrations and authentications, whose expiry has the shape of the sessions', and the ECDSA check of an assertion.
- Rolling back a failed installation, and crashes between the two renames of a binary and its bundle.
- The root key tables of src/trust_roots.hpp: any root set with distinct ids is allowed.
- AdaptiveInterval.Interval.Update: does not model the rounding of 32-bit floats; the moving average is taken exactly.
