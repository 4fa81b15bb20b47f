# Gap recovery, retransmission, matching and reassembly: a verified model

The programs modelled here move an exchange's market data from the wire to its consumers. An ASX ITCH client
receives MoldUDP64 packets over two multicast lines, asks a retransmission server for what is missing and takes
a start-of-day snapshot over SoupBinTCP. A test server plays the exchange: it builds packets, answers
retransmission requests and serves snapshots. Around them are a price-time matching engine, the TCP
reassembly buffer of the dispatcher, a reader of recorded files, a byte queue and a base-36 order-token codec.

The main results:

- **Exactly once, in order.** Over every run of a channel, whatever packets are lost, repeated, reordered,
  overlapping or sent again, what has been handed on is one contiguous slice of the stream ending just below the
  expected number (`RecoveryLaws.ExactlyOnce`). That the snapshot server behaves is not assumed: it is
  proved of the server (`SnapshotSession.ServedClientIsExact`).
- **Nothing lost in refresh.** Over every run each packet that comes in while the snapshot is taken waits in order,
  and at the marker, or when the snapshot is given up, it is handed on or still queued
  (`ChannelEvents.MarkerCountsAllArrivals`, `ChannelEvents.GivingUpLosesNothing`). What every event does is also stated
  field by field.
- **Modes.** Over every run, refresh and retransmission exclude each other, refresh once left is never
  re-entered, and a retransmission in progress fills a gap that ends just before a queued packet.
- **End to end.** A client in a gap that is fed what the server sends for its own request gets exactly the
  missing messages and drains its queue up to the next gap, on values and on the two objects byte for byte
  (`EndToEnd.GapClosesExactlyWhen`, `EndToEnd.Recover`), also amid other traffic; a client that takes the server's
  snapshot goes over to multicast without gap or repeat (`SnapshotSession.SnapshotEndToEnd`).
- **When things fail.** Each of these is stated as an exact condition on what was there before, most with an input that
  shows it. A client gets out of a gap if and only if the gap is below 65536, a packet boundary lies at or after its
  start, and greedy packing from each boundary gets to its end; and, whatever else arrives, if and only if a walk
  over the packets' numbers does. A gap that starts behind the last boundary is never answered, and one
  that starts between boundaries and runs behind the last may be answered in part only. A second request can
  be merged into a pending one only if what is pending fits in front of it. A packet that begins with something
  already seen is dropped whole. A zero-quantity trade is printed exactly when an IOC order is filled exactly and
  more could be taken. A record file's last record is passed over exactly when it is a bare header.
- **Matching.** Every run of BUY, SELL and IOC commands leaves the books uncrossed and in price-time order, stated in
  prices and times; the older of two orders at one price trades first;
  a good-for-day order trades just as it would have immediate-or-cancel; and over all commands, CANCEL and
  MODIFY included, quantity is conserved on both sides and the id index agrees with the books.
- **Chunking.** However a TCP stream is split into reads and whatever the size of the file buffer, frames and
  records come out as from the whole stream.

## How it is built

Code that updates an object in place is a class; its methods are proved to compute a function of the old
state, and the laws are lemmas about those functions: `Client.Channel` computes `Recovery`,
`RetransmissionServer.ServerChannel` computes `Retransmission`, `MatchingEngine.Engine` computes `Matching`,
`SoupBinTcp.SnapshotServer` computes `SnapshotSession`, and `TcpReassembly.TcpBuffer` computes `Cut`.

| file | content |
|---|---|
| `Bytes`, `Mold` | network byte order; the MoldUDP64 packet, written and read |
| `Ranges`, `Recovery`, `RecoveryLaws`, `RecoveryTheorems` | the channel as a state machine, what every step and every run keeps |
| `Client` | the channel in place, on packet bytes |
| `ChannelEvents` | what each event does to a channel's fields, and what becomes over a run of the packets that came in |
| `Retransmission`, `Boundaries`, `RetransmissionServer` | the plan for a request; which requests the boundaries let it answer; packet building and sending in place |
| `OpenGap` | a client in a gap, under any packets |
| `EndToEnd` | gap, request, retransmission, delivery |
| `SnapshotSession`, `SoupBinTcp` | the snapshot server, with the client, on values and as bytes |
| `Matching`, `PriceTime`, `MatchingIndex`, `MatchingEngine` | matching on values; priority in prices and times; the id index; books and commands in place |
| `TcpReassembly`, `QrecReader`, `MessageQueue` | the TCP buffer, the record reader, the byte queue |
| `Base36` | order tokens |

What is outside is a parameter: the clock, and whether each connect or send succeeds (`Recovery.Env`).

## Model

| member | source | states |
|---|---|---|
| Mold.GetItchPacketLength | MD_handler_parser/ASX_ITCH_1_1_Handler.cpp:924-944 | the length found by walking the blocks is where the last message of the packet ends, and the count is not reduced |
| Mold.PacketRoundTrip | MD_handler_parser/ASX_ITCH_1_1_Handler.h:29-37 | a packet written is read back as itself, whatever follows it in the buffer, and takes header plus blocks |
| Mold.KnownPacket | cwtest/ITCH/ASX_Test_Handler.cpp:254-281 | a packet of two messages byte for byte, numbers in network order |
| Mold.PacketCanonical | MD_handler_parser/ASX_ITCH_1_1_Handler.h:29-37 | a complete packet has one wire form: encoding undoes decoding |
| Mold.BlocksIffWritten | cwtest/ITCH/ASX_Test_Handler.cpp:269-279 | blocks are read from a buffer exactly where they were written |
| Mold.IsPacketIffDecodes | MD_handler_parser/ASX_ITCH_1_1_Handler.cpp:1071-1123 | what a pointer walk over the blocks meets is what the decoder reads, and conversely |
| Mold.IsPacketTrimmed | MD_handler_parser/ASX_ITCH_1_1_Handler.cpp:1197-1209 | the queued copy, cut at the measured length, is the same packet |
| Ranges.FirstUncoveredUnique | MD_handler_parser/ASX_ITCH_1_1_Handler.cpp:1596-1661 | the least number no queued packet covers is the only one with everything before it covered |
| Client.Channel.constructor | MD_handler_parser/ASX_ITCH_1_1_Handler.cpp:2469-2493 | a new channel expects message 1 and is in refresh without a login |
| Client.Channel.Parse2 | MD_handler_parser/ASX_ITCH_1_1_Handler.cpp:1038-1132 | hands on exactly the packet's messages from the expected number on and moves the expected number behind them |
| Client.Channel.DeliverPartial | MD_handler_parser/ASX_ITCH_1_1_Handler.cpp:1622-1658 | the queue walk's own skip-and-deliver branch has the effect of `Parse2` on the whole packet |
| Client.Channel.SendRetransmitRequest | MD_handler_parser/ASX_ITCH_1_1_Handler.cpp:2724-2766 | a request sent carries its amount cut to 16 bits; a failed send leaves none |
| Client.Channel.DrainQueue | MD_handler_parser/ASX_ITCH_1_1_Handler.cpp:1589-1661 | the loop ends with everything handed on up to the least uncovered number and what lies beyond it still queued, in whichever order equal tops come |
| Client.Channel.AskForGap | MD_handler_parser/ASX_ITCH_1_1_Handler.cpp:1602-1618 | asks for the numbers in front of the least queued packet and enters retransmission, or leaves it if the request fails |
| Client.Channel.ProcessMdq | MD_handler_parser/ASX_ITCH_1_1_Handler.cpp:1589-1665 | drain and next request together |
| Client.Channel.SendTcpLogout | MD_handler_parser/ASX_ITCH_1_1_Handler.cpp:2427-2459 | succeeds, and switches the session off, only if it is on, connected and the send works |
| Client.Channel.ProcessSnapshotReject | MD_handler_parser/ASX_ITCH_1_1_Handler.cpp:1918-1931 | logs out, leaves refresh for good and drains |
| Client.Channel.EstablishRefreshConnection | MD_handler_parser/ASX_ITCH_1_1_Handler.cpp:1802-1837 | an open connection is kept; a new one starts with the session off |
| Client.Channel.SendSnapshotLogin | MD_handler_parser/ASX_ITCH_1_1_Handler.cpp:2518-2566 | never after a rejection; true at once if the session is on; otherwise as the send goes |
| Client.Channel.TryConnectSnapshot | MD_handler_parser/ASX_ITCH_1_1_Handler.cpp:1857-1878 | connects and logs in, or gives the snapshot up once more than five packets wait |
| Client.Channel.Parse | MD_handler_parser/ASX_ITCH_1_1_Handler.cpp:1137-1352 | one datagram, on bytes: the new channel state is the state machine's, and the bytes consumed are those of the branch taken |
| Client.Channel.FirstMessage | MD_handler_parser/ASX_ITCH_1_1_Handler.cpp:1215-1220 | the very first message ends refresh unless a snapshot connection is open, and rules out a snapshot in either case |
| Client.Channel.ParseByMode | MD_handler_parser/ASX_ITCH_1_1_Handler.cpp:1227-1344 | dispatch on refresh, retransmission, start of day, gap and in-sync |
| Client.Channel.ParseInRefresh | MD_handler_parser/ASX_ITCH_1_1_Handler.cpp:1227-1249 | the packet waits; an overdue snapshot is rejected |
| Client.Channel.ParseEarly | MD_handler_parser/ASX_ITCH_1_1_Handler.cpp:1257-1274 | beyond the gap: queued; inside it: asked for again and dropped |
| Client.Channel.ParseBeyondGap | MD_handler_parser/ASX_ITCH_1_1_Handler.cpp:1283-1305 | a new gap is asked for and the packet queued, unless the request fails |
| Client.Channel.ParseInSync | MD_handler_parser/ASX_ITCH_1_1_Handler.cpp:1314-1344 | heartbeats change nothing; otherwise the packet is handed on, and closing the gap drains the queue |
| Client.Channel.ExecuteTcpData | MD_handler_parser/ASX_ITCH_1_1_Handler.cpp:1933-2082 | one snapshot frame is one step of the state machine |
| Client.Channel.TakeSnapshotMessage | MD_handler_parser/ASX_ITCH_1_1_Handler.cpp:2027-2057 | wrapped as a one-message packet numbered by the messages received so far, a snapshot message is delivered unless already seen |
| Client.Channel.WrapMessage | MD_handler_parser/ASX_ITCH_1_1_Handler.cpp:2040-2052 | the wrapped bytes are that packet and fit the 360-byte buffer |
| Client.Channel.LeaveSnapshot | MD_handler_parser/ASX_ITCH_1_1_Handler.cpp:2005-2014 | the end marker sets the expected number and ends refresh for good |
| Client.Channel.ReadNothing | MD_handler_parser/ASX_ITCH_1_1_Handler.cpp:2151-2176 | an idle turn rejects an overdue snapshot or logs in on an open connection |
| Client.Channel.ReadClosed | MD_handler_parser/ASX_ITCH_1_1_Handler.cpp:2137-2150 | a lost connection is tried again, or given up |
| RecoveryLaws.ModesStep | MD_handler_parser/ASX_ITCH_1_1_Handler.cpp:1200-1344 | every event keeps the mode invariant, and leaving refresh and giving up on the snapshot are permanent |
| RecoveryLaws.RunModes | MD_handler_parser/ASX_ITCH_1_1_Handler.cpp:1200-1344 | the same over every run, whatever the snapshot server sends |
| RecoveryLaws.AskedStep | MD_handler_parser/ASX_ITCH_1_1_Handler.cpp:1267-1304 | every event keeps it that a channel waiting for a gap has last asked for everything from a number it has reached to the gap's end, in 16 bits |
| RecoveryLaws.RunAsked | MD_handler_parser/ASX_ITCH_1_1_Handler.cpp:1267-1304 | the same over every run |
| RecoveryLaws.ExactStep | MD_handler_parser/ASX_ITCH_1_1_Handler.cpp:1137-1352 | every event only extends what was handed on, from the same first message |
| RecoveryLaws.ExactlyOnce | MD_handler_parser/ASX_ITCH_1_1_Handler.cpp:1137-1352 | over every run what was handed on is the stream's slice ending at the expected number |
| RecoveryTheorems.DrainIsMaximal | MD_handler_parser/ASX_ITCH_1_1_Handler.cpp:1589-1665 | a drain stops at a number nothing queued covers, covers all before it, delivers each once, and keeps exactly the packets beyond |
| RecoveryTheorems.DrainAsksForNextGap | MD_handler_parser/ASX_ITCH_1_1_Handler.cpp:1602-1618 | it ends empty or having asked for the gap in front of the first packet kept; the 16-bit amount is the gap if and only if the gap is below 65536 |
| RecoveryTheorems.SnapshotIsPrefix | MD_handler_parser/ASX_ITCH_1_1_Handler.cpp:2027-2057 | on every run of a new channel still in refresh, what was handed on is the stream from message 1, one message for each snapshot message received, and the next number follows |
| RecoveryTheorems.SnapshotHandover | MD_handler_parser/ASX_ITCH_1_1_Handler.cpp:2003-2028 | at the end marker delivery goes on through everything queued; the whole is gapless if and only if the marker names the message after the last |
| RecoveryTheorems.PartiallyNewPacketIsDropped | MD_handler_parser/ASX_ITCH_1_1_Handler.cpp:1193-1195 | a packet carrying the expected number is delivered if and only if it starts there |
| RecoveryTheorems.LineArbitration | Connection_Handlers/ASX_ITCH_Session.cpp:57-59 | if one line carries its packets in order, any interleaving with packets of the same packetisation from the other line gets at least as far and delivers everything once |
| RecoveryTheorems.GapIsRefilled | MD_handler_parser/ASX_ITCH_1_1_Handler.cpp:1250-1344 | consecutive packets for the gap close it, leave retransmission and drain the queue |
| ChannelEvents.PacketIgnored | MD_handler_parser/ASX_ITCH_1_1_Handler.cpp:1156-1195 | a packet numbered 0, one thrown away on request, and one begun below the expected number change nothing but the count of packets to throw away |
| ChannelEvents.PacketWaitsInRefresh | MD_handler_parser/ASX_ITCH_1_1_Handler.cpp:1227-1249 | in refresh, with the time not up, a packet goes to the end of the queue and nothing else changes, but that the first packet of the day rules out a snapshot |
| ChannelEvents.DayStartsMidStream | MD_handler_parser/ASX_ITCH_1_1_Handler.cpp:1275-1281 | with the snapshot given up the day starts at the first packet, whatever its number |
| ChannelEvents.GapOpens | MD_handler_parser/ASX_ITCH_1_1_Handler.cpp:1283-1305 | every field after a packet beyond a gap, with the request sent or not |
| ChannelEvents.PacketInSync | MD_handler_parser/ASX_ITCH_1_1_Handler.cpp:1314-1335 | an expected packet is handed on and nothing else changes |
| ChannelEvents.GapCloses | MD_handler_parser/ASX_ITCH_1_1_Handler.cpp:1337-1344 | the packet that fills the gap's end is handed on, and then all that queued packets cover without a hole; those beyond stay queued |
| ChannelEvents.Connecting | MD_handler_parser/ASX_ITCH_1_1_Handler.cpp:1857-1878 | every field after an attempt to connect and log in, and the ten seconds it is given |
| ChannelEvents.FirstPacketConnects | MD_handler_parser/ASX_ITCH_1_1_Handler.cpp:1200-1214 | the first packet of a channel that never logged in waits and sets off that attempt |
| ChannelEvents.IdleTurn | MD_handler_parser/ASX_ITCH_1_1_Handler.cpp:2151-2176 | an idle turn sends a login on a connection that has none, or does nothing |
| ChannelEvents.SnapshotFrames | MD_handler_parser/ASX_ITCH_1_1_Handler.cpp:1961-1992 | every field after an accept, with its three seconds, a snapshot message and any other frame |
| ChannelEvents.LogoutOnLeaving | MD_handler_parser/ASX_ITCH_1_1_Handler.cpp:1918-1931 | the session is logged out where refresh ends if that can be sent, and stays connected |
| ChannelEvents.LeavesRefreshExactlyWhen | MD_handler_parser/ASX_ITCH_1_1_Handler.cpp:1200-1249 | refresh is left at the marker, on a rejected login, when the time is up, without a connection when more than five packets wait, and at the day's first packet without a connection, and at nothing else |
| ChannelEvents.RefreshEvent | MD_handler_parser/ASX_ITCH_1_1_Handler.cpp:1227-1249 | of one event: what came in waits in order, or when refresh is left is handed on up to the first number nothing covers, or is still queued |
| ChannelEvents.RunWaits | MD_handler_parser/ASX_ITCH_1_1_Handler.cpp:1227-1249 | over every run, as long as refresh lasts the queue is exactly what came in |
| ChannelEvents.MarkerCountsAllArrivals | MD_handler_parser/ASX_ITCH_1_1_Handler.cpp:2003-2028 | at the marker of any run the expected number is the first from the marker's on that no packet covers among all that came in during refresh |
| ChannelEvents.GivingUpLosesNothing | MD_handler_parser/ASX_ITCH_1_1_Handler.cpp:1918-1931 | when the snapshot is given up none of them is lost, the one just come included |
| ChannelEvents.PacketKeptThroughSnapshot | MD_handler_parser/ASX_ITCH_1_1_Handler.cpp:1238-1238 | messages 1 and 2 from the snapshot, 3 and 4 from a packet in between: all four are handed on |
| OpenGap.StaysOpen | MD_handler_parser/ASX_ITCH_1_1_Handler.cpp:1250-1274 | as long as the packets' numbers do not lead out of the gap, any packets at all only deliver in order, queue what lies beyond the gap and repeat requests |
| OpenGap.GapClosesIff | MD_handler_parser/ASX_ITCH_1_1_Handler.cpp:1137-1352 | whatever packets come, delivery goes forward without repeat or hole, and the gap is left if and only if the walk over their numbers leaves it |
| OpenGap.GapClosesAmidTraffic | MD_handler_parser/ASX_ITCH_1_1_Handler.cpp:1250-1344 | replies in order close a gap amid any other packets, if what starts at one of their boundaries also ends at one or beyond |
| OpenGap.LatePacketStallsGap | MD_handler_parser/ASX_ITCH_1_1_Handler.cpp:1193-1195 | without that a late packet of the other line makes the client drop every reply |
| Retransmission.FittingIsMaximal | cwtest/ITCH/ASX_Test_Handler.cpp:269-281 | the messages packed fit, one more would not, and all are packed if and only if together they fit |
| Retransmission.LargestMessage | cwtest/ITCH/Snapshot_Handler.h:320-320 | a message fits a packet alone up to 55978 bytes |
| Retransmission.RecoveryListReady | cwtest/ITCH/ASX_Test_Handler.cpp:661-679 | the patched list of boundaries is ascending, within the range, and starts at the first number asked for |
| Retransmission.EmittedContiguous | cwtest/ITCH/ASX_Test_Handler.cpp:681-715 | the packets sent follow one another without gap or overlap up to where the last one stops, even when packets are cut short |
| Retransmission.EmittedSlices | cwtest/ITCH/ASX_Test_Handler.cpp:681-715 | each is the message list's slice at its number and fits the buffer |
| Retransmission.StopsAt | cwtest/ITCH/ASX_Test_Handler.cpp:681-715 | where the last packet stops, from the boundaries and sizes alone: as far as greedy packing gets from the worst boundary with as many packets as are left from there |
| Retransmission.RetransmissionIsExact | cwtest/ITCH/ASX_Test_Handler.cpp:661-742 | the packets' union is exactly the range asked for if and only if a boundary lies at or after its start and from each boundary selected greedy packing gets to the end |
| Retransmission.LargeMessagesFallShort | cwtest/ITCH/ASX_Test_Handler.cpp:273-276 | two messages of 40000 bytes behind one boundary: only the first is sent |
| Retransmission.MergedWithOne | cwtest/ITCH/ASX_Test_Handler.cpp:661-679 | a request that comes while one position is pending gives a list that can be worked off |
| Retransmission.MergedExactlyWhen | cwtest/ITCH/ASX_Test_Handler.cpp:661-679 | with more pending it does if and only if what stays pending fits between the new start and the first boundary selected |
| Retransmission.RepeatedRequestGoesBack | cwtest/ITCH/ASX_Test_Handler.cpp:661-679 | the same request made twice gives a list that goes back from 100 to 1 |
| Retransmission.NothingCutShort | cwtest/ITCH/ASX_Test_Handler.cpp:681-715 | when every stretch fits, the packets are exactly the stretches between boundaries |
| Retransmission.MarksAscending | cwtest/ITCH/ASX_Test_Handler.cpp:162-169 | the boundaries set at loading are ascending and inside the list |
| Boundaries.MarkedExactlyWhen | cwtest/ITCH/ASX_Test_Handler.cpp:162-169 | a number is a boundary if and only if it lies below the list's length and a whole number of packets behind 1 |
| Boundaries.MarksRise | cwtest/ITCH/ASX_Test_Handler.cpp:162-169 | boundaries are set once each and in order |
| Boundaries.SelectedExactlyWhen | cwtest/ITCH/ASX_Test_Handler.cpp:666-673 | a request picks exactly the boundaries not before its start, up to the first behind its end |
| Boundaries.CompleteExactlyWhen | cwtest/ITCH/ASX_Test_Handler.cpp:661-715 | where any messages in a row fit, as many as boundaries are apart, and so do those behind the last boundary, a request that starts no later than that is answered completely if and only if greedy packing gets from its start to its end in as many packets as boundaries are picked |
| Boundaries.AlignedRequestsAreComplete | cwtest/ITCH/ASX_Test_Handler.cpp:661-715 | which holds for every request that starts at a boundary or has a boundary behind its end |
| Boundaries.AllRequestsAreComplete | cwtest/ITCH/ASX_Test_Handler.cpp:661-715 | and for every request if twice as many in a row fit |
| Boundaries.UnalignedRequestFallsShort | cwtest/ITCH/ASX_Test_Handler.cpp:674-676 | but not for [62, 95] of 95 messages of 1860 bytes: only 62 to 91 are sent |
| Retransmission.AnsweredExactlyWhen | cwtest/ITCH/ASX_Test_Handler.cpp:162-169 | with the boundaries set at loading a request is answered if and only if it starts no later than the last of them, 1 + size * ((n - 2) / size) |
| Retransmission.GapBehindLastBoundary | cwtest/ITCH/ASX_Test_Handler.cpp:167-167 | of 95 messages in packets of 30 the gap [92, 95] is never answered, the gap [91, 95] is |
| RetransmissionServer.ServerChannel.FillMessageList | cwtest/ITCH/ASX_Test_Handler.cpp:472-537 | a recorded packet's messages are appended in order, all but those whose type byte is L; of an empty message the type byte is the one that follows |
| RetransmissionServer.KeptOfIsKept | cwtest/ITCH/ASX_Test_Handler.cpp:515-525 | without empty messages that is: all but the messages of type L |
| RetransmissionServer.KeptUnlessL | cwtest/ITCH/ASX_Test_Handler.cpp:515-525 | a message is kept if and only if it does not begin with 'L' |
| RetransmissionServer.ServerChannel.MarkPackets | cwtest/ITCH/ASX_Test_Handler.cpp:162-169 | appends the boundaries 1, 1 + size, ... below the list's length |
| RetransmissionServer.ServerChannel.CreatePacket | cwtest/ITCH/ASX_Test_Handler.cpp:251-283 | the buffer holds the encoded packet of as many messages as fit 56000 bytes, with the reduced count in its header |
| RetransmissionServer.ServerChannel.CreateRecoveryList | cwtest/ITCH/ASX_Test_Handler.cpp:661-679 | the pending queue gets the boundaries of the range, its two ends overwritten with the range |
| RetransmissionServer.ServerChannel.SendRecoveryPacket | cwtest/ITCH/ASX_Test_Handler.cpp:681-715 | sends the next packet when due, patches the queue with where it stopped, and clears the range when the queue is used up |
| RetransmissionServer.ServerChannel.Parse | cwtest/ITCH/ASX_Test_Handler.cpp:717-742 | a request, whatever is pending, merges its boundaries into the list and sends the first packet; the amount 0 changes nothing |
| RetransmissionServer.ServerChannel.CheckWriteEvents | cwtest/ITCH/ASX_Test_Handler.cpp:596-605 | the remaining turns send the rest and end with no range pending |
| RetransmissionServer.RepliesAreEmitted | cwtest/ITCH/ASX_Test_Handler.cpp:681-715 | the datagrams sent are the planned packets, one for one |
| EndToEnd.EndToEndRecovery | cwtest/ITCH/ASX_Test_Handler.cpp:661-742 | a client that has asked for a gap below 65536, of a server that can answer, gets exactly the missing messages and those queued behind them |
| EndToEnd.GapClosesExactlyWhen | cwtest/ITCH/ASX_Test_Handler.cpp:661-742 | for every gap: fed what the server sends for its own 16-bit request, a client gets out of it if and only if the gap is below 65536 and the answer is complete; otherwise it keeps what was sent and goes on waiting |
| EndToEnd.GapOf65536 | MD_handler_parser/ASX_ITCH_1_1_Handler.cpp:1290-1295 | a gap of 65536 is asked for with the amount 0, and nothing is sent |
| EndToEnd.RecoveryAmidTraffic | MD_handler_parser/ASX_ITCH_1_1_Handler.cpp:1250-1344 | the client gets out also when other packets come between the replies, under the condition of `OpenGap.GapClosesAmidTraffic` |
| EndToEnd.RepliesKeepUp | cwtest/ITCH/ASX_Test_Handler.cpp:681-715 | the server's packets on their own meet that condition |
| EndToEnd.Retransmit | cwtest/ITCH/ASX_Test_Handler.cpp:596-742 | the server's datagrams for a request, the empty one included, are the planned packets as bytes |
| EndToEnd.ParseAll | MD_handler_parser/ASX_ITCH_1_1_Handler.cpp:1137-1352 | parsing a sequence of datagrams is the run of the state machine over their packets |
| EndToEnd.Recover | MD_handler_parser/ASX_ITCH_1_1_Handler.cpp:1250-1344 | the client object's last request goes to the server object and its datagrams to the client: the new state is that run, out of the gap exactly when the gap is below 65536 and the answer complete |
| EndToEnd.BuildAndParse | MD_handler_parser/ASX_ITCH_1_1_Handler.cpp:924-944 | a built packet measures as many bytes as were built and delivers exactly its unseen messages, also when the buffer filled up |
| EndToEnd.SplitRebuildParse | cwtest/ITCH/ASX_Test_Handler.cpp:472-537 | a recorded packet split, rebuilt and parsed delivers exactly the unseen of the messages kept; all are rebuilt if the packet fitted the buffer |
| SnapshotSession.LogInOnScript | cwtest/ITCH/ASX_Test_Handler.cpp:744-767 | a login starts a session the client can follow if and only if the accept goes out, and with it the marker of an empty session |
| SnapshotSession.LogInOpens | cwtest/ITCH/ASX_Test_Handler.cpp:757-759 | every field after a login that finds messages to send |
| SnapshotSession.LostMarkerRepeatsMessage | cwtest/ITCH/ASX_Test_Handler.cpp:651-658 | if that marker is lost, the next one names a message already sent |
| SnapshotSession.ServerFollowsScript | cwtest/ITCH/ASX_Test_Handler.cpp:606-658 | whatever sends fail and however the multicast goes on, the frames are accept, messages from 1 in order and, only when caught up, the marker naming the next message |
| SnapshotSession.ServedClientIsExact | MD_handler_parser/ASX_ITCH_1_1_Handler.cpp:1933-2061 | a client taking that server's frames among any packets meets every condition of exact delivery |
| SnapshotSession.SnapshotEndToEnd | cwtest/ITCH/ASX_Test_Handler.cpp:651-658 | at the server's marker the client has the stream from its beginning through everything it queued, without gap or repeat |
| SoupBinTcp.TextRoundTrip | cwtest/ITCH/ASX_Test_Handler.cpp:788-791 | a number printed in decimal is read back |
| SoupBinTcp.ReadAcceptSeqno | MD_handler_parser/ASX_ITCH_1_1_Handler.cpp:1975-1983 | a number padded on either side, of one digit or more, is read as itself |
| SoupBinTcp.ReadMarkerSeqno | MD_handler_parser/ASX_ITCH_1_1_Handler.cpp:2007-2011 | a right-aligned number is read as itself |
| SoupBinTcp.MeaningIsUnique | MD_handler_parser/ASX_ITCH_1_1_Handler.cpp:1961-2079 | bytes mean one frame at most |
| SoupBinTcp.KnownFrames | cwtest/ITCH/ASX_Test_Handler.cpp:778-791 | accept, message, end marker and reject byte for byte |
| SoupBinTcp.ExecuteTcpData | MD_handler_parser/ASX_ITCH_1_1_Handler.cpp:1933-2082 | the bytes of a frame drive the channel by that frame's event |
| SoupBinTcp.SnapshotServer.ConfirmLogin | cwtest/ITCH/ASX_Test_Handler.cpp:744-767 | a known user is accepted, the session ended at once when there is nothing to send, each as its send goes, and the closing time set |
| SoupBinTcp.SnapshotServer.SendSnapshotMessage | cwtest/ITCH/ASX_Test_Handler.cpp:606-658 | sends the next message as a frame that means it, and the marker when caught up; a failed send changes nothing; the connection is closed only after the marker and past the time these sends add up to |
| SoupBinTcp.SnapshotServer.SendEndSnapshot | cwtest/ITCH/ASX_Test_Handler.cpp:855-878 | the marker's bytes name the next multicast message and give the connection ten more seconds; a failed send leaves the session open |
| Matching.InsertOrdered | cwtest/tests/my_match.cpp:61-78 | inserting by price, then time, keeps a book in priority order |
| PriceTime.RunInPriceTime | cwtest/tests/my_match.cpp:61-78 | after every run, in prices and times alone: cheapest sell first, dearest buy first, the older first at one price, every sell dearer than every buy, no quantity zero |
| PriceTime.OlderTradesFirst | cwtest/tests/my_match.cpp:61-78 | of two orders resting at one price no command touches the younger and leaves anything of the older |
| PriceTime.TakesUpToItsPrice | cwtest/tests/my_match.cpp:336-379 | an incoming order trades with no order beyond its price, names both orders and prices right, and with quantity left leaves none within it |
| PriceTime.RestsAtItsPrice | cwtest/tests/my_match.cpp:356-382 | what remains of a GFD order rests under its id at its own price, of which 16 bits are kept |
| PriceTime.CheapestThenOldest | cwtest/tests/my_match.cpp:161-231 | one session trade by trade: the cheapest, then the older of two |
| Matching.FrontIsBest | cwtest/tests/my_match.cpp:61-78 | the order that beats all others is the front of the ordered book |
| Matching.MatchedUncrosses | cwtest/tests/my_match.cpp:161-231 | matching leaves the books uncrossed, in order, every quantity positive |
| Matching.MatchedConserves | cwtest/tests/my_match.cpp:161-231 | it moves quantity from both books into trades one for one, each at sell price <= buy price |
| Matching.IocTakesAllItCan | cwtest/tests/my_match.cpp:336-379 | an IOC order trades the smaller of its quantity and the crossing quantity |
| Matching.IocZeroTrade | cwtest/tests/my_match.cpp:338-354 | a zero-quantity trade is printed if and only if the quantity is the sum of some orders at the front and less than what crosses |
| Matching.ZeroTradePrinted | cwtest/tests/my_match.cpp:338-354 | five bought of five and seven prints a second trade, for nothing |
| Matching.EnterSettles | cwtest/tests/my_match.cpp:334-384 | one BUY, SELL or IOC command leaves the books uncrossed, ordered and positive |
| Matching.RunStaysUncrossed | cwtest/tests/my_match.cpp:334-384 | so does every run of them |
| Matching.GfdTradesLikeIoc | cwtest/tests/my_match.cpp:161-231 | GFD and IOC print the same non-zero trades with the same resting orders, in total min(qty, crossing), and differ only in the remainder left resting |
| MatchingIndex.FrontsKeepIndex | cwtest/tests/my_match.cpp:180-197 | the matching loop's erasures keep the index in agreement with both books |
| MatchingIndex.IndexedInLetters | cwtest/tests/my_match.cpp:271-275 | the map says 'S' and 'B' exactly for the ids resting on each side |
| MatchingEngine.Book.CancelOrder | cwtest/tests/my_match.cpp:84-91 | takes out one order with the id if there is one; the rest may be in any order |
| MatchingEngine.Engine.TradeFronts | cwtest/tests/my_match.cpp:176-198 | one pass prints the fronts' trade, removes at least one order, conserves quantity |
| MatchingEngine.Engine.MatchLoop | cwtest/tests/my_match.cpp:176-227 | the loop ends uncrossed and, on ordered books, as the matching function says |
| MatchingEngine.Engine.MatchBooks | cwtest/tests/my_match.cpp:161-231 | the order that has rested longer is printed first; conservation and index kept in any case |
| MatchingEngine.Engine.IocAgainstSells | cwtest/tests/my_match.cpp:336-355 | the BUY loop, on any books conserving and keeping the index, on ordered books the IOC function |
| MatchingEngine.Engine.IocAgainstBuys | cwtest/tests/my_match.cpp:360-379 | the SELL loop likewise |
| MatchingEngine.Engine.Enter | cwtest/tests/my_match.cpp:321-386 | a bad price or quantity changes nothing; otherwise accepted = traded + resting + unfilled on the order's side and settled books follow the matching function |
| MatchingEngine.Engine.Cancel | cwtest/tests/my_match.cpp:269-283 | an indexed order leaves its book and the index and nothing else does; an unknown id changes no book |
| MatchingEngine.LedgersBooked | cwtest/tests/my_match.cpp:269-384 | account by account: a command's removals are booked as removed, fills as no longer unfilled, new orders as accepted |
| MatchingEngine.Engine.Modify | cwtest/tests/my_match.cpp:294-384 | removal by id, then entry anew under that id, with quantity accounted for in both steps |
| MatchingEngine.RemovalIndexed | cwtest/tests/my_match.cpp:270-281 | what the map says finds exactly the order, and afterwards the id rests nowhere |
| TcpReassembly.FramesRoundTrip | MD_handler_parser/ASX_ITCH_1_1_Handler.cpp:2084-2130 | the frames a sender wrote are the frames cut, whatever partial frame follows |
| TcpReassembly.CutKeepsBytes | Connection_Handlers/EPoll_Dispatcher.cpp:255-264 | frames and rest together are the bytes received |
| TcpReassembly.KnownStream | MD_handler_parser/ASX_ITCH_1_1_Handler.cpp:2084-2130 | a heartbeat, a frame and a partial one, byte for byte |
| TcpReassembly.ChunkingDoesNotMatter | Connection_Handlers/EPoll_Dispatcher.cpp:234-272 | for any split of the stream into reads the frames are those of the unsplit stream |
| TcpReassembly.FullBufferStalls | Connection_Handlers/EPoll_Dispatcher.cpp:235-241 | a full buffer yields no frame if and only if the frame it begins is larger than the buffer |
| TcpReassembly.TcpBuffer.ReadFrame | MD_handler_parser/ASX_ITCH_1_1_Handler.cpp:2084-2130 | takes exactly the complete frame at the front, or nothing |
| TcpReassembly.TcpBuffer.ConsumeFrames | Connection_Handlers/EPoll_Dispatcher.cpp:255-264 | the loop hands on every complete frame and leaves the unconsumed suffix |
| TcpReassembly.TcpBuffer.OnRead | Connection_Handlers/EPoll_Dispatcher.cpp:234-272 | after any read, frames handed on and bytes held are those of everything received |
| TcpReassembly.TcpBuffer.NeverReadsNothing | Connection_Handlers/EPoll_Dispatcher.cpp:235-241 | a zero-length read, which would pass for the end of the connection, is issued only when a frame is larger than the buffer |
| QrecReader.ParseQrecFile | MD_handler_parser/Handler.cpp:208-323 | for any buffer that holds the largest record the handler gets the records once and in order, and reading ends; all of them if and only if the file does not end in a bare header |
| QrecReader.OnlyABareEndIsMissed | MD_handler_parser/Handler.cpp:243-243 | and then that one record is all that is missing |
| QrecReader.ParseBuffer | MD_handler_parser/Handler.cpp:243-317 | hands on every whole record in the buffer and stops inside the next |
| QrecReader.Refill | MD_handler_parser/Handler.cpp:225-240 | unparsed bytes move to the front and the file continues behind them; nothing is read over |
| QrecReader.FirstCall | MD_handler_parser/Handler.cpp:283-309 | a "qRel" record's length and context are those of the long header, a "qRec" record's those of the short one |
| QrecReader.ReadsBackWhatWasWritten | MD_handler_parser/Handler.cpp:283-317 | a file written from records, each with its kind's title, length and context, is read back as those records |
| MessageQueue.Queue.Enqueue | MD_handler_parser/ASX_ITCH_1_1_Handler.h:546-554 | appends the entry |
| MessageQueue.Queue.GetPayloadAt | MD_handler_parser/ASX_ITCH_1_1_Handler.h:566-575 | at an entry's offset gives back that entry and the next entry's offset |
| MessageQueue.Queue.Walk | MD_handler_parser/ASX_ITCH_1_1_Handler.h:561-575 | from offset 0 the walk gives back exactly what was enqueued, in order, and stops at the end |
| MessageQueue.BytesTellQueuesApart | MD_handler_parser/ASX_ITCH_1_1_Handler.h:546-554 | equal bytes mean equal entries in equal order |
| Base36.NumeralFits | cwtest/tests/test.cpp:21-34 | an id takes at most k characters if and only if it is below 36 to the k |
| Base36.IdsFitSixSlots | cwtest/tests/test.cpp:20-39 | no 32-bit id reaches the symbol's slots |
| Base36.EncodeByArithmetic | cwtest/tests/test.cpp:15-70 | the first two encoders write the token, for any 32-bit id, and nothing behind it; 'B' for a buy, 'S' for a long sell, 'T' for any other, then the symbol |
| Base36.EncodeByTable | cwtest/tests/test.cpp:73-93 | so does the third, by table, with the same side and symbol |
| Base36.EncodeByTableAndFill | cwtest/tests/test.cpp:95-117 | so does the fourth, for ids that are not negative |
| Base36.KnownToken | cwtest/tests/test.cpp:15-41 | two tokens and one id, character by character |
| Base36.TokenCarriesId | cwtest/tests/test.cpp:119-140 | the id is read back from its token |
| Base36.TokensTellOrdersApart | cwtest/tests/test.cpp:15-41 | tokens are equal if and only if side, symbol and id are |
| Base36.DecodeByArithmetic | cwtest/tests/test.cpp:119-147 | writes the last nine decimal digits of the id, for every readable token; the overflowing last multiplier is never used |
| Base36.DecodeByTable | cwtest/tests/test.cpp:149-207 | so do the other two |
| Base36.DecodersAgreeOn | cwtest/tests/test.cpp:129-136 | arithmetic and table read a character alike if and only if it is a digit or the bracket after Z |
| Base36.IdsComeBack | cwtest/tests/test.cpp:119-207 | decode after encode gives the id zero-padded to nine digits if and only if it is below 10^9, otherwise its last nine digits |

## Left out

Assumptions on what comes from outside:

- Packets are complete slices of one stream with fewer than 0xFFFF messages. Truncated and malformed packets, the end-of-session count and changes of session name are not modelled; sequence numbers stay below 2^64, and other counters are unbounded.
- Snapshot frames come while the channel is in refresh, which the client does not check; the client logs in once, so one accept arrives, and it asks for message 1.
- Snapshot messages are not empty, do not begin with 'G' (which the client takes for the end marker) and fit the client's 360-byte buffer; numbers in frames are as the server writes them and in the range the parsers accept.
- Messages in the server's list are shorter than 65534 bytes, beyond which the packet builder's 16-bit length wraps.
- MDBufferQueue is not part of this model; the early-packet queue is a bag whose top is any entry with the least number.
- Ids of new resting orders are unused (for the index; conservation does not need it) and order times strictly increase; equal times, which `gettimeofday` allows, are not modelled.
- Record headers are declared elsewhere: their sizes and fields are parameters. The handler consumes every packet whole.

Stated weaker than it might be:

- Client.Channel.Parse2: the exits for packets shorter than their blocks claim, because packets are complete.
- Mold.GetItchPacketLength: for packets cut short the code reads lengths behind the buffer and returns a shorter length; not stated.
- RetransmissionServer.ServerChannel.Parse: a list that cannot be worked off, because it goes back or leaves the message list, makes the code count below zero or read past the list; `Retransmission.MergedExactlyWhen` says when, and what follows is not modelled.
- RetransmissionServer.ServerChannel.FillMessageList: an empty message that ends the buffer makes the code read one byte behind it; not modelled.
- SoupBinTcp.SnapshotServer.ConfirmLogin: comparing user name and password is a parameter; after a refused login the server goes on to send a message, about which nothing is claimed.
- MatchingEngine.Book.Push: the heap array itself is not modelled; the container is given by its contents and, while it is a heap, its priority order.
- MatchingEngine.Engine.MatchLoop: the two loops of `match_books` differ only in the order a trade's parties are printed and are one method with a flag.
- MatchingEngine.Engine.Modify: the books after a MODIFY are stated through the books between its two steps, because a removal leaves a heap's order open.
- MatchingEngine.Engine.Cancel: priority and uncrossed books are claimed for runs of BUY, SELL and IOC only, because an erased order may break the heap.
- Base36.EncodeByArithmetic: parsing the internal id from text (`atoi` and its replacement) is a parameter, which makes the first two encoders one method.
- Base36.DecodeByTable: the second and third decoder differ in the width of the table's entries only and are one method.

Not modelled:

- The rest of command parsing in the matching engine (tokens, the substring checks of command and time in force, number syntax) and PRINT.
- The record reader's resynchronisation after mangled titles, its guard against time going backwards and its give-up after five failures.
- Order-book message handlers, order-id hashing, quotes and trades published onwards, product lookup.
- Sockets, epoll, threads and locks, logging, alerts, heartbeats, configuration, admin commands.
- The multicast side of the test server, beyond how far it has got.
- The earlier draft of the matching engine, the variants of `parse` and `parse2` compiled without `USE_MY`, and the other dispatchers.
