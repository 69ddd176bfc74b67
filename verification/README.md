# Verified model of parts of an XPilot client and its map tools

This project models the parts of the repository whose correctness is hardest to see from
the code, and proves what they are for:

- the receiving side of the network client: a reliable byte stream with cumulative
  acknowledgements inside packets that may be lost, repeated, reordered and cut anywhere;
  the window of frame packets in front of it; the message parser behind it; the run-length
  decoder that unpacks the map in place (`src/client/netclient.c`); and what the server
  writes for all of these, message by message and byte by byte (`src/common/net.c`,
  `src/server/netserver.c`, `src/server/xpmap.c`);
- the map converter: partitioning wall blocks, following polygon edges on a torus with
  half blocks, the nearest-pair search that skips ahead, linking polygons into a tree and
  walking around it (`mapconvert.py`);
- the random map generator: flood fill, labelling that survives running out of labels,
  the removal of inaccessible holes, and two rewriting passes (`contrib/wildmap.c`);
- the client's map optimiser, which recodes walls in place, and the tables made from the
  map (`src/client/client.c`);
- the matcher of game messages (`src/client/messages.c`), and the messages about deaths by
  which the server feeds it; the sound slots (`src/client/oalaudio.c`) and the UTF-8
  validator (`src/client/native_text.c`).

Objects that the source updates in place are classes (`EdgeFinder`, `Partitioner`,
`PolyLinker`, `Traversal`, `Map`, `Setup`, `NetClient`, `FrameBuffers`, `ClientMap`,
`Blockmap`, `Table`, `CheckTable`, `MsgNames`, `SoundDevice`); their methods are proved
against functions and predicates about which the lemmas state the properties.

What the proofs show about the code, beyond that it does what it is meant to do:

- `Partition_map` fails to remove inaccessible holes when no open region has more cells
  than are filled. On a map with fewer than 255 open regions from which no construct is
  removed, the empty cells after the call are connected exactly when some open region has
  more cells than are filled, or the filled cells are connected (`Labels` and `Holes`);
  whatever is removed, either of the two suffices. `Holes.HolesCanRemain` is a map of 91
  by 90 cells, two filled bands between two open ones, which `Connect_map` leaves as it is
  and in which two regions cut off from each other remain, for every fill ratio from 9 per
  cent up.
- What `Packet_printf` writes is read back by `Packet_scanf` exactly when every number fits
  its field and every string its limit and the room left in the buffer. A string that meets
  the end of the room is written without its NUL byte, and the next message is then read as
  part of it (`ServerMessages.CutTextIsReadOn`). When every message fits, all of them are
  handled as what they were, in every run of the network (`MessageRuns.HandledAreSent`).
- A message of the day with a length field of -11 or less is the only reliable message
  that does not move the read position forward; the loop over the messages does not end
  exactly when it comes to one.
- The optional "head first" of a message format is taken whenever it is there. A format
  finds every message that fits it exactly when nothing behind a "head first" can be taken
  for it (`HeadFirst.FormatIsExact`). All formats of the chain are of that kind.
- The messages by which the server announces deaths fit the formats of the client, with the
  names that tell who was killed by whom, except deaths by weapons other than ordinary
  shots, such as a torpedo, and by the laser of a cannon, which no format fits
  (`DeathMessages`).
- A team in a message format is written down before the rest is looked at, and stays when
  the rest fails (`Leftovers`). For nicks of at most 15 characters, the most that is
  received, the two formats with teams (`src/client/messages.c:242-292`) are misread for
  some message exactly when an earlier nick, the text behind it in the format and some team
  begin a later nick that has not come before: with players "A" and "A (team 2#", the
  message that "A (team 2#" of team 3 has replaced the treasure gives team 2 and player
  "3" (`TeamFormats.ReplacedAtTwo`).
- There are three slots for names. They are enough for all formats of the chain, and for
  the replaced treasure when the nicks differ. For the destroyed treasure, and nicks that
  differ, they are enough exactly when no nick runs on into a later one in that way and
  there is no chain of three such nicks; a message of a player "A's (2#" beside a player
  "A" needs four (`TeamFormats.DestroyedAtTwo`). In general the condition is a count over
  the nicks (`NickClashes.SlotsAreExact`).
- A part has no polygon with a downward or diagonal edge exactly when it consists of rows
  of filled blocks that go all the way round the map. If it has no polygon at all, as on a
  map that is all wall, `poly_link` takes the last element of an empty list.
- The table of check points is complete exactly when no number is used twice. A map with a
  single check point that is numbered 1 (`CheckTables.NumberBeyondTable`) is one for which
  there is no entry in the table.
- `Xp_text_complete_utf8_prefix` does not look at the bytes behind an incomplete lead
  byte, so it also accepts strings that no text begins with.
- Four of the sixteen bridge cases of `Connect_map` are covered by earlier ones, and the
  two left neighbours are one cell off at the first cell of each sweep of `Smooth_map`.
- In `Sort_labels` the size given to `memset` is that of 256 pointers while the table
  holds 256 numbers; the model clears the table of 256 entries.

## Model

| member | source | states |
|---|---|---|
| ReliableStream.AbsorbKeepsSync | src/client/netclient.c:2943-3016 | whatever slice of the stream arrives, the control buffer still holds exactly the stream up to the client's position, which never decreases |
| ReliableStream.AbsorbAdvances | src/client/netclient.c:2966-3010 | a slice that covers the client's position and fits moves it to the end of the slice |
| ReliableStream.StepKeepsInv | src/server/netserver.c:2923-3129 | writing, sending any unacknowledged slice, delivery in any order and any number of times, handling and acknowledgement all keep the two ends in step |
| ReliableStream.StepsGoForward | src/client/netclient.c:2943-3016 | no step moves the client's position, the handled position or the acknowledged position back |
| ReliableStream.RunsAreSafe | src/client/netclient.c:2943-3016 | for every run of these events: the bytes received are exactly the stream up to the client's position, and nothing ever moves back |
| ReliableStream.NoBadAck | src/server/netserver.c:3092-3099 | in no run does the server see an acknowledgement of data it has not written |
| ReliableStream.RetransmissionCatchesUp | src/server/netserver.c:2949-2996 | from every reachable state, sending all unacknowledged data once more, cut into any consecutive slices of at most 1024 bytes, and delivering them and the last acknowledgement brings both ends up to date, if the data fit |
| MessageRuns.HandledAreWritten | src/client/netclient.c:1535-1569 | in every run of server, network and client, in which the client handles messages with this loop, the messages handled are the first messages of the stream that was written, in order and each once |
| MessageRuns.AllGetHandled | src/client/netclient.c:1535-1569 | from every reachable state such a retransmission and one more loop leave exactly the messages of the whole stream handled |
| MessageRuns.AllCanGetHandled | src/server/netserver.c:2949-2996 | so every run that has not ended can go on until all complete messages of the stream are handled, if the data fit |
| MessageRuns.HandledAreSent | src/client/netclient.c:1535-1569 | when the server has written the stream message by message, the client has at every point of every run handled the first of just these messages, with all their values, and the connection has not been ended |
| MessageRuns.SentGetHandled | src/server/netserver.c:2949-2996 | and the run can go on until all the messages that were sent have been handled, if the data fit |
| NetClients.NetClient.SendAck | src/client/netclient.c:2929-2941 | the acknowledgement written is the client's position, or nothing when the buffer is too full |
| NetClients.AckIsRead | src/server/netserver.c:3036-3037 | the acknowledgement is what Packet_printf writes for its three arguments, and the server's scan gives back position and frame exactly when both fit signed 32-bit numbers |
| NetClients.NetClient.TakeSlice | src/client/netclient.c:2974-3015 | the in-place dealing with early, late, overlapping and too large slices is the abstract step, and the read buffer moves to the end of the slice in all of them |
| NetClients.NetClient.ReceiveReliable | src/client/netclient.c:2943-3016 | the same for the whole packet with its header; incomplete or malformed packets change neither the stream nor the acknowledgements |
| NetClients.NetClient.ReceiveHonest | src/client/netclient.c:2943-3016 | a packet with a slice of the server's stream only extends what has been received by a part of that stream |
| NetClients.WireHeader | src/client/netclient.c:2951-2953 | the header of a slice reads back as it was written for every position below 2^31 |
| NetClients.NetClient.HandleReliable | src/client/netclient.c:1535-1569 | after every call the messages handled are those of the whole stream received so far, however it was cut into packets; by ServerMessages.SentAreHandled these are the messages that were sent |
| NetClients.NetClient.HandleUnread | src/client/netclient.c:1535-1569 | one call handles the complete messages of the unread bytes in order and leaves the read position at the first incomplete one |
| ReliableMessages.MessageIsStable | src/client/netclient.c:1535-1566 | a message that did not have to wait is not changed by the bytes after it |
| ReliableMessages.CutDoesNotMatter | src/client/netclient.c:1535-1569 | handling a prefix and later the rest with what was left gives the same messages, position and end as handling all at once |
| ReliableMessages.MotdIsStable | src/client/netclient.c:2078-2098 | rolling the read position back when the text is incomplete makes a message of the day independent of cuts |
| ReliableMessages.PlayerIsStable | src/client/netclient.c:2671-2709 | the same for the two-part player message |
| ReliableMessages.OnlyMotdSticks | src/client/netclient.c:2090-2097 | a message is handled without moving forward exactly when it is a message of the day with length -11 or less |
| ReliableMessages.StuckAtNegativeMotd | src/client/netclient.c:1535-1569 | the loop over a stream does not end if and only if, at a message boundary that it reaches, there is such a message of the day |
| ReliableMessages.NegativeMotdIsStuck | src/client/netclient.c:2090-2097 | a concrete message of that kind |
| Sockets.ScanIsStable | src/common/net.c:722-950 | a scan that did not run out of data gives the same values whatever follows |
| PacketPrint.StringIsExact | src/common/net.c:882-921 | a string that is read is the bytes up to its NUL byte, in their order, and none of them is NUL |
| PacketPrint.PrintedIsScanned | src/common/net.c:543-720 | for every format and all its arguments: what Packet_printf writes is read back by Packet_scanf to its end, whatever follows, exactly when each number is one that its field can hold and each string, with its NUL byte, is within its limit and the room left |
| PacketPrint.ReadOn | src/common/net.c:672-687 | when something does not fit but the values are read all the same, the last string was cut off at the end of the room and is read on in what follows |
| PacketPrint.PrintedIsEncoded | src/common/net.c:596-687 | what fits is written whole |
| ServerMessages.KindsAgree | src/server/netserver.c:2124-2391 | for every type of message the client scans the format that the server writes, and it knows no other types |
| ServerMessages.WrittenIsHandled | src/server/netserver.c:2124-2391 | every message that the server writes is handled as just what it was, using all its bytes and no others, exactly when its numbers and texts fit and the user name is accepted |
| ServerMessages.PlayerIsHandled | src/server/netserver.c:2255-2282 | this holds for a player, who is written and read in two parts |
| ServerMessages.MotdIsHandled | src/server/netserver.c:3592-3622 | and for a message of the day, whose bytes follow its header |
| ServerMessages.SentAreHandled | src/client/netclient.c:1535-1569 | from a stream of messages written one after the other the loop handles just these messages, and uses it up |
| ServerMessages.CutTextIsReadOn | src/common/net.c:672-687 | a text of two bytes, written where there is room for three, loses its NUL byte, and a talk acknowledgement behind it is read as its third byte |
| Sockets.FixedScan | src/common/net.c:722-950 | a format without strings is complete exactly when all its bytes are there |
| Bytes.LongRoundTrip | src/common/net.c:543-720 | a number survives the wire exactly when it fits 32 bits with a sign |
| RunLength.LastToken | src/client/netclient.c:579-590 | the parity of the run of high bytes before the last byte tells whether it is a literal or a count |
| RunLength.DecodeIsLonger | src/client/netclient.c:572-576 | no encoding is longer than what it stands for, so writing from the back never passes the unread bytes |
| RunLength.DecodeJoined | src/client/netclient.c:578-605 | encodings can be decoded piece by piece |
| Unpacker.RoomForRun | src/client/netclient.c:590-599 | the next run fits between the unread bytes and the bytes written |
| Unpacker.RunUnpacked | src/client/netclient.c:590-598 | expanding a run in place keeps the invariant of the decoder |
| MapSetup.Setup.UnpackTokens | src/client/netclient.c:578-605 | one turn of the outer loop decodes all tokens of the last run of high bytes |
| MapSetup.Setup.UncompressMap | src/client/netclient.c:559-613 | for every well-formed encoding: 0 and exactly the decoded map when it fills the map, which is the map that the server has encoded, -1 when it is too short or the order is unknown |
| MapCompression.CompressedIsDecoded | src/server/xpmap.c:80-104 | for every map: decoding the server's encoding gives the map back exactly when no byte has its high bit set |
| MapCompression.CompressedIsShorter | src/server/xpmap.c:80-104 | the encoding is never longer than the map |
| MapCompression.RunIsCompressed | src/server/xpmap.c:85-97 | a run of two to 255 equal bytes that ends there, or is cut there, is written as one pair of bytes |
| MapCompression.PackToken | src/server/xpmap.c:84-100 | a run or a single byte is encoded over bytes that have been read already |
| MapCompression.CompressMap | src/server/xpmap.c:80-104 | the encoding is written over the map in place, and nothing behind it is touched |
| MapSetup.DecodedIsGivenBack | src/client/netclient.c:559-613 | what the client decodes is the only map of that encoding |
| FrameWindow.FillKeepsFilled | src/client/netclient.c:1782-1870 | while packets are read the frames held have different numbers, all newer than the last one processed, and the window does not overflow |
| FrameWindow.FillKeepsNewest | src/client/netclient.c:1841-1869 | every frame held or read is still held, unless all frames held are newer and leave no room: only the oldest is ever dropped |
| FrameWindow.HeldHasArrived | src/client/netclient.c:1782-1870 | no frame is invented |
| FrameWindow.ProcessingKeepsSound | src/client/netclient.c:1902-1934 | processing the oldest packet leaves a sound window, whether or not its number became the last one processed |
| FrameWindow.OtherIsProcessedLast | src/client/netclient.c:1772-1934 | over successive calls, whatever arrives between them: such a packet is never dropped, nothing is read while it waits, and it is processed directly after the frames held when it arrived, oldest first |
| FrameWindow.CountHeld | src/client/netclient.c:1875-1900 | the number of buffers in use is the number of packets held |
| FrameWindow.LoopIsRead | src/server/netserver.c:2721-2723 | the frame number that is peeked at is the one that the server writes, exactly when it fits a signed 32-bit number |
| FrameSlots.RemoveSlot | src/client/netclient.c:1924-1934 | switching with the last buffer and emptying it removes one packet and leaves no gap |
| FrameSlots.DropOldest | src/client/netclient.c:1849-1863 | switching and emptying the last buffer drops exactly the oldest frame |
| NetInput.FrameBuffers.NetRead | src/client/netclient.c:1709-1763 | stale and unreadable frames are skipped, the first other packet lands in the buffer |
| NetInput.FrameBuffers.FillWindow | src/client/netclient.c:1782-1870 | the loop with its index resets terminates and does to the buffers what reading does to the abstract window |
| NetInput.FrameBuffers.FindOldest | src/client/netclient.c:1875-1900 | finds the oldest frame, or the packet that is not one when no frame is left, and counts the packets |
| NetInput.FrameBuffers.TakeOut | src/client/netclient.c:1917-1934 | takes one packet out and keeps the buffers without gaps |
| NetInput.FrameBuffers.NetInput | src/client/netclient.c:1772-1934 | a whole call reads, then processes exactly the oldest packet, and between calls the empty buffers come last |
| EdgeTrace.NextIsBoundary | mapconvert.py:284-287 | the inner turning loop stops within six turns and on a boundary edge again |
| EdgeTrace.NextIsInjective | mapconvert.py:284-287 | no two boundary edges have the same successor |
| EdgeTrace.Returns | mapconvert.py:267-295 | from every boundary edge the trace comes back to its start, and no edge repeats before |
| EdgeTrace.CycleCloses | mapconvert.py:273-275 | the offsets of a traced polygon sum to 0 modulo width and height |
| EdgeTrace.MarksOnStartCycle | mapconvert.py:276-283 | the cell marked for an edge is one whose own start edge lies on the same cycle |
| EdgeTrace.StartIsFresh | mapconvert.py:298-325 | a cell that is not done starts at a boundary edge that has not been traced |
| EdgeTrace.DoneExtends | mapconvert.py:276-283 | a cell is done exactly when the cycle of its own diagonal or left side has been traced |
| EdgeTrace.KeepsAll | mapconvert.py:298-325 | adding a new cycle keeps the polygons apart and everything else the loop knows |
| EdgeTrace.FoundExactlyOnce | mapconvert.py:298-325 | every cycle with a downward or diagonal edge is one polygon of the result, and no other polygon shares an edge with it |
| EdgeFinding.EdgeFinder.TurnRight | mapconvert.py:285-287 | the turning loop |
| EdgeFinding.EdgeFinder.TracePoly | mapconvert.py:267-295 | terminates, writes one whole cycle with chained positions that closes on the wrapped map, and marks exactly its cells |
| EdgeFinding.EdgeFinder.FindEdges | mapconvert.py:297-325 | finds every cycle with a downward or diagonal edge exactly once, sorted by part |
| PolyPartition.StepIsSymmetric | mapconvert.py:248-255 | blocks are joined both ways |
| PolyPartition.WaysAreSides | mapconvert.py:231-238 | the ways out of a block are exactly the sides along which it is solid |
| PolyPartition.PartGrows | mapconvert.py:256-258 | a joined block without a place gets the place one step on in the same part |
| PolyPartition.SamePart | mapconvert.py:256-259 | a joined block that has a place already has it in the same part |
| PolyPartition.PartIsHangingTogether | mapconvert.py:230-261 | two placed blocks are in the same part exactly when they hang together |
| PolyPartitioning.Partitioner.Expand | mapconvert.py:245-259 | one turn of the worklist loop, over all ways of the block in their order |
| PolyPartitioning.Partitioner.FindParts | mapconvert.py:230-261 | places every wall block, at coordinates that wrap to it, numbers the parts so that two blocks share one exactly when they hang together, and lays each part out as one piece: from its first block, which lies at its own coordinates, step by step to joined blocks |
| PolyMaking.FindPolys | mapconvert.py:561-567 | partitioning and edge finding together |
| EdgeParts.CycleWall | mapconvert.py:284-287 | all blocks along an edge cycle hang together |
| EdgeParts.OwnersInPart | mapconvert.py:276-283 | so all cells that a polygon marks are of one part, whichever cell it was started at |
| EdgeParts.WithoutPolys | mapconvert.py:298-325 | a part has no polygon of this loop exactly when it consists of rows of filled blocks that go all the way round |
| PolyMaking.LinkPart | mapconvert.py:561-572 | partitioning, edge finding and linking with wrapped offsets together: a full walk of every part, except those that consist of such rows, along links each of which is no longer than any way on the map, however often it goes round, from the polygons linked before to any other |
| PolyLinks.LinkTreeIsShort | mapconvert.py:532-556 | each link made with wrapped offsets is the shortest on the map across the cut between the polygons linked before and the others |
| PolyMaking.PartsCanBeLinkedPlain | mapconvert.py:507-511 | the polygons of every part also meet what the linking with plain offsets needs |
| FindMin.SlowSteps | mapconvert.py:395 | along a polygon whose distances change slowly, n steps change a distance by at most n times 1.4143 |
| FindMin.SkipIsPositive | mapconvert.py:394-395 | every skip makes progress |
| FindMin.SkippedAreFar | mapconvert.py:391-395 | no point that is skipped is nearer than the least distance met so far |
| FindMin.FindRow | mapconvert.py:383-395 | one row with skips gives the result of the row without |
| FindMin.FindMin | mapconvert.py:370-398 | the search with skips returns what the full double loop returns, in the order of its arguments |
| FindMin.NearestIsLeast | mapconvert.py:370-398 | that is a pair of least distance, if any is nearer than the distance given, and nothing otherwise |
| FindMin.PlainIsSlow | mapconvert.py:508-510 | the plain measure is slow enough for the skips on connected points |
| FindMin.WrappingIsSlow | mapconvert.py:512-516 | so is the wrapping measure |
| PrimTree.NearestGap | mapconvert.py:537-541 | what the search finds between two polygons is the least gap between their points, with an offset that leads from one to the other |
| PrimTree.UpdatedIsBest | mapconvert.py:537-541 | comparing with the polygon linked last keeps the shortest way to each polygon from all those linked |
| PrimTree.NearestOfAll | mapconvert.py:542-547 | the polygon chosen is at least as near as any polygon not linked is to any that is |
| PrimTree.LinkNearest | mapconvert.py:548-555 | linking it keeps the links a tree and the order by distance |
| PrimTree.GrownIsTree | mapconvert.py:532-555 | when all polygons are linked the links are a tree that fits the map |
| PrimTree.LinksAreBottlenecks | mapconvert.py:532-555 | any other chain of polygons from the root to a polygon has a hop at least as long as the longest link on the tree's own way |
| PrimTree.PlainFits | mapconvert.py:507-511 | plain offsets are as long in both directions and need no wrapping |
| PrimTree.WrappingFits | mapconvert.py:512-516 | wrapped offsets are as long in both directions and differ from the plain ones by whole map sizes |
| PrimTree.WrappingIsShortest | mapconvert.py:512-516 | a wrapped offset is no longer than any offset to the same place of the map |
| PrimTree.NearestAround | mapconvert.py:512-516 | so what is nearest for wrapped offsets is nearest among all offsets on the map |
| PrimTree.FoundPolysFit | mapconvert.py:511-530 | the polygons of the edge finder meet all that the linking with wrapped offsets needs |
| PrimTree.FoundPolysFitPlain | mapconvert.py:507-511 | they also meet all that the linking with plain offsets needs |
| PolyLinks.PolyLinker.Choose | mapconvert.py:542-546 | the loop over the remaining polygons finds one of least distance |
| PolyLinks.PolyLinker.LinkAll | mapconvert.py:532-554 | links all polygons into a tree, each step adding the polygon nearest to any already linked |
| PolyLinks.PolyLink | mapconvert.py:532-556 | linking and walking: the result chains on the wrapped map, keeps to the edges and links, passes every edge once and every link once there and once back with opposite offsets |
| PolyTree.FoundIsClosed | mapconvert.py:267-295 | the polygons of the edge finder close in the sense the walk needs |
| PolyTree.EdgeStep | mapconvert.py:418-421 | one edge between two walks that fit it gives a walk |
| PolyTree.ThereAndBack | mapconvert.py:411-415 | going over a link, around its target and back ends where it started |
| PolyWalk.AroundLeads | mapconvert.py:406-424 | the walk around a polygon and everything below it chains and comes back to its start |
| PolyOnce.BelowOneLink | mapconvert.py:406-424 | a node below another is below the end of exactly one of its links |
| PolyOnce.CountAround | mapconvert.py:406-424 | how often a walk from any point passes an edge or link |
| PolyOnce.WalkPassesAllOnce | mapconvert.py:406-424 | from the root every edge is passed once and every link once in each direction |
| LinkLists.NextLink | mapconvert.py:409-410 | the first remaining link at a point is the next one of the whole list, and deleting it leaves those after it |
| LinkLists.NoLinkLeft | mapconvert.py:409 | when none remains there, all those at the point have been followed |
| LinkLists.PendingAfterLink | mapconvert.py:411-417 | following and deleting a link leaves the lists of all other nodes right |
| Traversals.Traversal.Traverse | mapconvert.py:406-424 | the recursion with its deletions terminates, appends exactly the walk, and uses up the link lists below its node only |
| Traversals.Traversal.FollowLinks | mapconvert.py:409-417 | the inner loop follows the links at a point in their order |
| Torus.LinkedIffPath | contrib/wildmap.c:271-340 | being linked on the twisted torus is being joined by a path of neighbours |
| Labels.FloodDone | contrib/wildmap.c:271-340 | what a finished flood has reached is exactly the component of its start |
| Labels.FloodLabels | contrib/wildmap.c:644-662 | flooding the first unlabelled cell labels its whole component and nothing else |
| Labels.RenamingKeeps | contrib/wildmap.c:646-657 | dropping and renumbering labels drops whole components only |
| Labels.LabelsUsedUp | contrib/wildmap.c:646 | labels run out only when there are at least 255 components |
| Labels.NoHoles | contrib/wildmap.c:665-723 | one connected region with whole components of its complement removed is connected |
| Labels.PartitionLeavesNoHole | contrib/wildmap.c:665-723 | when the largest labelled open region has more cells than label 0 counts, all empty cells after the call form one connected region |
| Labels.RemovesWhole | contrib/wildmap.c:695-722 | whole constructs are removed, and none when too few cells are filled anyway |
| Labels.RemovedAreSmall | contrib/wildmap.c:695-722 | no construct that is removed is more than twice as large as one that is kept |
| Holes.BigIsChosen | contrib/wildmap.c:680-692 | a region is chosen exactly when some open region has more cells than are filled |
| Holes.HolesExactly | contrib/wildmap.c:665-723 | with fewer than 255 open regions and no construct removed, the result is connected exactly when some open region has more cells than are filled or the filled cells are connected |
| Holes.NoHoleRemains | contrib/wildmap.c:665-723 | whatever is removed, either of the two leaves no inaccessible hole |
| Holes.BandsAreQuiet | contrib/wildmap.c:403-576 | the map of two bands is one that the pass before leaves as it is |
| Holes.HolesCanRemain | contrib/wildmap.c:665-723 | on it, with any fill ratio from 9 per cent up, two regions cut off from each other remain |
| LabelTable.SortLabels | contrib/wildmap.c:593-620 | the table lists all labels, 0 and 1 first and the others by falling count |
| WildMap.Map.Flood | contrib/wildmap.c:271-340 | the flood with its chunked worklist terminates and marks exactly the component |
| WildMap.Map.CountLabels | contrib/wildmap.c:578-591 | counts every value |
| WildMap.Map.DropSmall | contrib/wildmap.c:646-657 | only whole components are dropped, none larger than one that is kept |
| WildMap.Map.LabelMap | contrib/wildmap.c:622-663 | every label from 2 up is one whole component of the cells that held the label, all other cells are 0, and cells are dropped only when labels run out |
| WildMap.Map.Partition | contrib/wildmap.c:665-723 | the call fills all cells but the chosen label, and then removes exactly the constructs behind the cut in the order of their sizes, except those that can stay and have half the size of the one at the cut |
| MapPasses.ConnectMap | contrib/wildmap.c:403-576 | terminates, turns only empty cells filled, copies only values of filled cells, and leaves every cell quiet |
| MapPasses.NoSmallGaps | contrib/wildmap.c:403-576 | then no two filled cells of a row or column of the torus are separated by a gap of one or two |
| MapPasses.FillBridge | contrib/wildmap.c:466-555 | a bridge is filled exactly when one of the corner patterns is there |
| Torus.AdjacentIsOnRing | contrib/wildmap.c:40-55 | the four neighbours of a cell are one step or one row away on the ring of all cells |
| MapSmoothing.SmoothedIsExact | contrib/wildmap.c:757-808 | the rules change a cell exactly when it is space or solid and there are three solid cells around a corner and three empty ones opposite, to the half block with that corner, or when it is a solid spur, to space |
| MapSmoothing.CutFitsSides | contrib/wildmap.c:757-780 | a half block put into a cell has solid cells along its solid sides and space along its open ones |
| MapSmoothing.SpurIsOpen | contrib/wildmap.c:781-808 | a solid cell that becomes space has space on all its sides but one |
| MapSmoothing.SweptIsSmooth | contrib/wildmap.c:741-833 | after a sweep without a change no cell of the map can be rounded and there are no spurs |
| MapSmoothing.WeightUpdate | contrib/wildmap.c:741-833 | replacing a cell by one of lower rank lowers the weight of the map |
| MapSmoothing.SmoothMap | contrib/wildmap.c:725-834 | terminates by the rank solid, space, diagonal; the map comes from the filled cells by such roundings, one cell at a time, each for the cells around it at that time, and at the end none is left to do; no space becomes solid |
| MapCodes.RecodingKeepsBlue | src/client/client.c:633-665 | recoding a block does not change which of its sides count as solid |
| MapCodes.RestoreUndoesRecode | src/client/client.c:591-611 | restoring undoes every recoding |
| MapCodes.RecodedDraws | src/client/client.c:683-808 | a recoded block draws exactly the solid sides it was told to draw |
| MapCodes.RecodedIsNotPlain | src/client/client.c:683-808 | no wall is left plain by recoding, and a filled block is not drawn at all exactly when none of its sides is wanted |
| MapGrid.OrderDoesNotMatter | src/client/client.c:667-811 | recoding a block among blocks already recoded gives what recoding it first would have given |
| MapOptimizer.SidesAreDrawnOnce | src/client/client.c:616-811 | after a call for the whole map, a side of a wall is drawn exactly once; with outlines exactly when one of the two blocks owns it |
| MapOptimizer.EdgesAreDrawn | src/client/client.c:693-720 | after such a call every solid side at the edge of a map that does not wrap is drawn |
| MapOptimizer.ChangeKeepsBlocks | src/client/client.c:565-614 | recoding and restoring never lose what a block was received as |
| MapOptimizer.CallsKeepBlocks | src/client/client.c:469-811 | no sequence of calls that recode, restore or set dots loses what a block was received as |
| MapOptimizer.RestoringGivesBack | src/client/client.c:565-614 | after any such sequence, restoring the map and removing its dots gives back exactly the map received |
| MapOptimizer.DotsKeepBlocks | src/client/client.c:469-559 | so do dots |
| ClientMaps.ClientMap.MapBlue | src/client/client.c:616-811 | in-place recoding of a rectangle equals a simultaneous one, also when it runs over the edges of the map |
| ClientMaps.ClientMap.MapRestore | src/client/client.c:565-614 | the same for restoring |
| ClientMaps.ClientMap.MapDots | src/client/client.c:469-545 | dots are exactly at the edge and grid places whose blocks allow them, by MapOptimizer.DotsAreExact |
| MapOptimizer.DotsAreExact | src/client/client.c:508-545 | after the call a block is one of the six dot types exactly at the places for dots whose block was received as space, or as a decoration while these are not shown |
| MapCodes.BlueIsSolid | src/client/client.c:634-664 | the table of solid sides agrees with the wall of the map file that each type stands for |
| BlockTables.PlacesAreExact | src/client/client.c:1144-1181 | the places of a kind are increasing and are exactly the blocks of that kind |
| BlockTables.SentIsKnown | src/server/xpmap.c:482-558 | fuel stations, cannons, targets, bases and check points are taken for what the server sent, and a base's entry holds its direction and team |
| BlockTables.KnownIsSent | src/client/client.c:1080-1091 | no other block is taken for one of these |
| BlockTables.EntriesAreReceived | src/client/client.c:1144-1177 | each entry's block and team make up the byte received, the team of a base is below 10 and its block a multiple of 10, and the byte left on the map is the block |
| BlockTables.PlainKeepsKind | src/client/client.c:1164-1177 | what is left on the map is of the same kind, and only bases and check points change |
| BlockTables.Table.Search | src/client/client.c:235-253 | the binary search finds an entry exactly when the block received there is of the kind, also in an empty table |
| BlockIndex.Blockmap.CountKind | src/client/client.c:1093-1102 | the first pass counts the entries of the table |
| BlockIndex.Blockmap.InitBlockmap | src/client/client.c:1063-1183 | the tables are filled exactly up to their sizes, in increasing order, and each check point has the last place with its number, while teams and numbers are taken off the map |
| CheckTables.ChecksAreExact | src/client/client.c:1173-1177 | the table of check points has a place for every number exactly when no number is used twice, and then it has the place of each |
| CheckTables.NumberBeyondTable | src/client/client.c:1123-1130 | a map whose check point has a number beyond the table |
| CheckTables.NumberUsedTwice | src/client/client.c:1173-1177 | a map that uses a number twice: the table has no place for the other number |
| MsgFormats.MatchIsSound | src/client/messages.c:102-181 | a match is explained by words that begin the message |
| MsgFormats.NamesAreListed | src/client/messages.c:102-181 | the names are the teams and nicks among them, if the format cannot leave a team behind or no nick begins another one |
| MsgFormats.MatchIsComplete | src/client/messages.c:102-181 | if a message fits at all the matcher succeeds, and its choice is the first in the order of players and words |
| MsgFormats.MatchIsExact | src/client/messages.c:102-181 | a format in which nothing can be taken for "head first" matches exactly the messages that fit it |
| MsgFormats.FailureAddsNothing | src/client/messages.c:128-139 | a failed format leaves no names behind when it has no team that can be met before it fails |
| MsgFormats.NamesOfNicks | src/client/messages.c:92-99 | a format without teams stores as many names as it has nicks when it fits, and none otherwise |
| Leftovers.LeftoversArePossible | src/client/messages.c:102-181 | some failed message leaves names behind if and only if there is such a team |
| Leftovers.ReadingIsRight | src/client/messages.c:102-181 | for all messages and players the names are those of the words matched, if and only if no nick is followed by such a team or nothing fits at all |
| Leftovers.TeamStays | src/client/messages.c:165-176 | a nick and a team matched, and text that is not there: the team stays |
| Leftovers.ReplacedLeavesTeam | src/client/messages.c:242-244 | so it does in the format that tells who has replaced the treasure |
| Leftovers.ReadOrMisread | src/client/messages.c:102-181 | the names of a message that fits are right exactly when there are no more of them than the format has |
| NickClashes.Apart | src/client/messages.c:130-140 | if a team can be met behind two nicks of a message, the shorter nick, with text and team, begins the longer one and fails directly behind the team |
| NickClashes.MisreadIsClash | src/client/messages.c:128-176 | for nicks that can be received, some message is misread if and only if an earlier nick runs on into a later one that has not come before |
| NickClashes.SlotsAreExact | src/client/messages.c:92-99 | for nicks that can be received, all names of every message fit into the slots if and only if a count over the nicks says so |
| TeamFormats.ReplacedIsMisread | src/client/messages.c:242-247 | that condition for the replaced treasure |
| TeamFormats.DestroyedIsMisread | src/client/messages.c:278-284 | and for the destroyed treasure |
| TeamFormats.ReplacedAtTwo | src/client/messages.c:242-247 | two nicks of at most ten characters and a message that is misread |
| TeamFormats.ReplacedIsStored | src/client/messages.c:242-247 | three slots are always enough for the replaced treasure when the nicks differ |
| TeamFormats.DestroyedIsStored | src/client/messages.c:277-292 | for the destroyed treasure they are if and only if no nick runs on into a later one and there is no chain of three |
| TeamFormats.DestroyedAtTwo | src/client/messages.c:277-292 | two nicks of at most seven characters and a message for which four names are written |
| TeamFormats.DestroyedOverflows | src/client/messages.c:277-292 | so there are nicks that differ and can be received for which three slots are not enough |
| TeamScan.NamesAreRight | src/client/messages.c:242-284 | when no nick runs on into a later one, the names are those of the first fit |
| TeamScan.ScanReplaced | src/client/messages.c:234-268 | finds exactly the messages that fit, never writes beyond the slots, and tells team and player when no nick runs on into a later one |
| TeamScan.ScanDestroyed | src/client/messages.c:270-300 | the same for both teams and the player, for the nicks for which the slots are enough |
| HeadFirst.FormatIsExact | src/client/messages.c:147-150 | a format matches every message that fits it, for all players, if and only if nothing behind a "head first" can be taken for it or nothing fits at all |
| MsgFormats.LastFirstIsReversed | src/client/messages.c:368-373 | the stored names are the names of the message in reverse order |
| MsgFormats.ParseRender | src/client/messages.c:111-126 | reading a format text gives back its items |
| MsgScan.MsgNames.MatchFmt | src/client/messages.c:92-181 | the recursive matcher on texts, which appends to the slots, is the function on items, and stays within the slots whenever that function writes no more names than there is room for |
| MsgScan.MsgNames.MatchNicks | src/client/messages.c:130-140 | the loop over the players |
| MsgRules.RuleAt | src/client/messages.c:376-440 | the formats of the chain in their order, and that the places where names are looked up tell the story of each format |
| MsgScan.ScanGameMsg | src/client/messages.c:366-446 | the chain finds the first format that the message fits, as if each had started with no names, names killer and victims as that format does, and never writes beyond the slots |
| DeathMessages.AnnouncedFits | src/client/messages.c:376-441 | every death that the server announces, with names that the client knows, in words for which there is a format, fits that format, with the names that tell who was killed and by whom |
| DeathMessages.FitsCrash | src/server/walls.c:228-308 | so do all the ways to crash, head first or not, against all obstacles |
| DeathMessages.AnnouncedIsNotMissed | src/client/messages.c:376-441 | such a death is never missed, whatever the nicks are, and is told by that format or one before it |
| DeathMessages.WeaponIsNoticed | src/server/collision.c:1146-1156 | of the deaths by weapons only those by ordinary shots are noticed, when no other nick begins the message |
| DeathMessages.RoastedIsMissed | src/server/laser.c:186-188 | no format fits a death by the laser of a cannon, when no other nick begins the message or its end |
| SoundLists.StoppedLeavesList | src/client/oalaudio.c:212-219 | the pointer changes take one slot out of the looping list |
| SoundLists.StoppedJoinsRing | src/client/oalaudio.c:216-219 | and put it behind the first slot of the ring |
| SoundLists.KeptOrStopped | src/client/oalaudio.c:204-225 | kept and stopped slots together are the list, and the kept ones are those heard in the last frame |
| Sounds.SoundDevice.constructor | src/client/oalaudio.c:132-140 | at first all slots are in the ring |
| Sounds.SoundDevice.Play | src/client/oalaudio.c:162-200 | which slot plays, and how ring and list change; every slot stays in exactly one of them |
| Sounds.SoundDevice.Update | src/client/oalaudio.c:204-225 | keeps in order exactly the looping sounds heard since the last frame and returns the others to the ring |
| Utf8.CharIsEncoded | src/client/native_text.c:895-939 | every byte sequence of section 4 of RFC 3629 is the encoding of a code point that is not a surrogate |
| Utf8.EncodedIsChar | src/client/native_text.c:895-939 | and every such code point has one, which decodes to it |
| Utf8.CheckedIsChar | src/client/native_text.c:899-939 | the checks on lead byte, tails and code point leave exactly the sequences of the standard |
| Utf8.Prefix | src/client/native_text.c:884-946 | the loop computes the prefix that the lemmas are about |
| Utf8.StrictIsExact | src/client/native_text.c:884-946 | strict mode accepts exactly the encodings of sequences of code points, and whole |
| Utf8.DecodingIsUnique | src/client/native_text.c:884-946 | an accepted string has one reading |
| Utf8.CutAtBoundary | src/client/native_text.c:948-953 | for any cut of a text, prefix mode returns the largest code point boundary not past the cut |
| Utf8.PrefixIsExact | src/client/native_text.c:884-946 | exactly which strings and prefixes prefix mode accepts |
| Utf8.NotACut | src/client/native_text.c:915-921 | it accepts a string that no text begins with |

## Left out

- Sockets, timeouts, resuming a session and quitting: the network is a set of packets that may be delivered in any order and number, and a reconnection clears the frame buffers and keeps the positions in the stream, so it is no event of the stream; a reconnection that fails ends the session and is not modelled.
- Round-trip estimation and the choice of what to send when: the server may send any slice that it has not seen acknowledged.
- The stream is limited to 2^31 - 1 bytes, the positions that the 32-bit header can carry.
- The effect of the handlers of reliable messages on the game: a message stands for what was received, and a handler that fails is not modelled.
- The conversions of Packet_printf for unsigned 32-bit numbers, which no reliable message uses, and the end of a frame, which may use the spare bytes; where the message of the day is cut into pieces.
- Announcements of deaths that are not about a player, a weapon with an owner, an obstacle, a ball, an explosion, a laser or a cannon (asteroids, shots of nobody, the edge of the universe); the list of helpers behind the first one is any text.
- A record is assumed to hold at most one frame, at its front.
- Run-length encodings that are malformed or decode to more than the map, which the client does not reject before writing.
- The edges that only wrap, found after line 327 of mapconvert.py, and the walk of a part that wraps completely (lines 426-493).
- The third measure of poly_link, a projection that rounds; square roots are a function on the reals that has their defining property, and the distance that stands for none is an integer.
- poly_link chooses its measure by the turning of the polygons (lines 496-527); here any measure that meets the stated conditions is taken.
- In traverse the two lists of a node, starts and targets of its links, are one list of links.
- The random generation, decoration and output of wildmap.c; the fill ratio is given as a number of cells.
- The chunks of the flood's worklist are sequences, so their allocation and linking are not captured; nor is the reuse of one buffer as two arrays.
- Labels are numbers from 0 to 255; the sign of C characters does not appear.
- The dot flags of cannons, at the end of Map_dots, and the lookup tables of Map_blue and Map_dots, which are functions here; Map_blue and Map_restore share the loop over a rectangle.
- BlockIndex.Blockmap.InitBlockmap: requires that no check point is numbered beyond the number of check points, because for such a map the source writes to a place outside the table.
- TeamScan.ScanDestroyed: requires nicks for which three slots are enough, because for all others the source writes a name outside them for some message.
- Binary searches for fuel stations, cannons, targets and bases differ only in their table; one stands for all four.
- The statistics kept after a message has been recognised, and what is done with teams and players that have been found; that the nicks of a game differ is left to the server (src/server/contact.c:383-385).
- The words of a message format are lists in the order of the source; nicks may be any strings, except where they are said to be received ones.
- OpenAL calls, sample loading and the sources of the slots; a slot is named by its place in the table.
- Null pointers given to Utf8_prefix, and everything else in native_text.c.
- Fonts, rendering, configuration, the user interface, the metaserver and the other tools of the repository.
