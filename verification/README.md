# Teonet core and codecs: a Dafny model

The project models two parts of the repository and proves what they are for.

**The mesh core in `src/`.** A packet larger than 448 bytes is cut into numbered fragments, kept
at the receiver in a map shared by all senders, and put together again by a handler that runs the
dispatcher on the rebuilt packet (`NetCore`, `NetSplit`, `Reassembly`, `NetCom`, `EndToEnd`).
`AsyncQueue` is the queue through which any thread hands events to the event loop, as atomic steps
of posting threads, signal callback and idle callback. `Peers` is the life of a peer: ARP table,
silence sweep, disconnects, and the reconnect requests tied to callback-queue records.
`PeerPackets` holds the bodies of the CONNECT and RESEND commands.

**The codecs in `examples/fossa/fossa.c`.** The JSON tokenizer and the path lookup over its flat
token array (`JsonTree`, `JsonParser`, `JsonNesting`, `JsonLookup`, with `JsonText`, `JsonRead` and
`JsonStandard` for the grammar of the dialect, `JsonErrors` for what its error codes say, `JsonPath`
for what a path says, and `JsonOverflow` for a path it cannot follow), SHA-1 with its 16-word ring
and streaming interface (`Sha1Spec`, `Sha1Example`, `Sha1Transform`, `Sha1`), the CoAP option list,
composer and parser (`CoapOptions`, `Coap`, `CoapMessage`, with `CoapWire` for the datagrams
themselves), WebSocket framing over a growing buffer (`Mbuf`, `WebSocket`), the glob matcher
(`Glob`, `GlobMeaning`) and base64 (`Base64`). `Bytes`, `Wrappers` and `Arithmetic` are shared.

Code that changes state is modelled by classes and methods over arrays, linked nodes and fields;
each is proved against a function of the old state, and the laws are proved about that function.
Standards are taken as the specification where there is one: FIPS 180-4 for SHA-1, RFC 7252 for
CoAP, RFC 6455 for WebSocket, RFC 8259 for JSON texts, RFC 4648 for base64.

## Where the code does less than one would expect

The model follows the code. These are the places where the obvious law fails, each with the exact
condition under which it holds.

- A last-flagged fragment that overtakes another fragment of its message loses the packet, or,
  where an earlier message left a fragment under the missing key, yields wrong bytes:
  `Reassembly.LastMustComeLast`, `Reassembly.StaleCorrupts`, `Reassembly.StaleExample`.
- `ns_coap_compose` reserves space by option number but writes deltas, so bytes of unknown content
  may follow the message in the buffer: `Coap.WrittenFits`, `Coap.BufferRoundTrip`,
  `Coap.SlackExample`. The parser holds numbers and lengths in 16 bits while the composer accepts
  269 more: `Coap.RoundTrip`, `Coap.WideNumberExample`.
- `find_json_token` reads an index into an `int`, which a long index overflows:
  `JsonLookup.FindJsonToken`, `JsonOverflow.OverflowExample`.
- A text that ends within a `\u` escape is answered as incomplete even where a digit that is there
  is none, so that nothing can complete it: `JsonErrors.IncompleteGoesOn`.
- `ns_coap_parse` takes a payload marker with nothing behind it for a good message, where section 3
  of RFC 7252 calls it a format error: `CoapWire.LoneMarkerAccepted`. It holds an option number or
  length in 16 bits, so the rest of what the wire can say is taken modulo 65536.
- The base64 decoder looks at seven bits of a byte, and so takes a digit with the highest bit set:
  `Base64.DigitOf`.
- `SHA1Update` compares a 32-bit sum that can wrap: `Sha1.BranchIsExact`, `Sha1.BranchExample`.
- In `ns_match_prefix` an alternative before a `|` counts only if it matches at least one byte, so
  `*|b` does not match the empty string: `Glob.MatchLost`, `Glob.EmptyMatchIsLost`.
- `deliver_websocket_data` checks for a close frame after it has removed the frame, and so looks at
  the first byte of the next one: `WebSocket.CloseMissedOrEarly`, `WebSocket.CutMatters`. A close
  frame that ends the stream is noticed all the same: `WebSocket.FinalCloseNoticed`.
- With defragmentation on, the start of a continuation frame can be taken for a partly joined message
  and consumed: `WebSocket.PartialFrame`, `WebSocket.PrefixTakenForMessage`.

## Model

| member | source | states |
|---|---|---|
| NetCore.CreatePacketFrom | src/net_core.c:511-526 | the buffer is exactly length byte, name, command, data |
| NetCore.ParsePacket | src/net_core.c:535-561 | a packet is rejected or split into name, command and data, with no read outside it |
| NetCore.FrameRoundTrip | src/net_core.c:511-561 | a frame parses back to the same name, command and data if and only if the name ends in its only NUL and is shorter than 256 bytes, as every host name is (at most 31 by src/config/conf.h:20) |
| NetCore.ParsedIsFrame | src/net_core.c:535-561 | whatever the parser accepts is the frame of what it returns |
| NetCore.FrameExample | src/net_core.c:511-526 | a frame written out byte by byte |
| NetSplit.ChunksCover | src/net_split.c:66-90 | the slices of a cut packet join to the packet |
| NetSplit.CountBound | src/net_split.c:66-90 | a packet of permitted size has at most 11702 fragments, so an index never reaches the last-packet bit |
| NetSplit.KeyInjective | src/net_split.c:121-138 | map keys of two fragments are equal exactly when sender, packet number and fragment number are |
| NetSplit.KeyExample | src/net_split.c:121-138 | a map key written out byte by byte |
| NetSplit.SplitExample | src/net_split.c:74-97 | both packets of any 449 bytes, byte by byte |
| NetSplit.Splitter.SplitPacket | src/net_split.c:61-100 | small packets are not cut; large ones give all fragments under one number, and the counter moves on with 16-bit wrap |
| NetSplit.Splitter.OneSubPacket | src/net_split.c:74-97 | one buffer holds payload length, packet number, flagged index, slice and, in the first, the command |
| NetSplit.Splitter.TakeRun | src/net_split.c:154-200 | the loop removes the stored run up to the first gap, and yields command and joined data when there is none |
| NetSplit.Splitter.Combine | src/net_split.c:111-224 | flush, add, and on a last-flagged fragment the lookup of the whole run, as one state function |
| NetSplit.CombinedKeepsCommands | src/net_split.c:111-224 | no call leaves an empty first fragment in the map |
| Reassembly.ForeignArrival | src/net_split.c:115-200 | a fragment of another sender or packet number leaves this message's fragments alone, but for the flush |
| Reassembly.OwnArrival | src/net_split.c:140-224 | a fragment other than the last-flagged one is stored under its number, yields nothing, and touches no other fragment |
| Reassembly.RunHolds | src/net_split.c:111-224 | over any interleaving, what is stored of a message is what has arrived of it |
| Reassembly.LastArrival | src/net_split.c:165-224 | on any map, the last-flagged fragment yields a packet exactly when something is stored under every other key; it is the one sent when those are its own fragments and, among stale ones of the same sizes, only then |
| Reassembly.Reassembled | src/net_split.c:61-224 | for any starting map, interleaving and order with the last-flagged fragment last, the command and bytes come back and exactly this message's keys go |
| Reassembly.LastMustComeLast | src/net_split.c:111-224 | on every map and every run of packets the C code can read, earlier last-flagged fragments of the same number included, the packet comes out if and only if every other key is held by then; it is the right packet when own fragments are held and, among stale ones of the same sizes, only then |
| Reassembly.HeldIsStored | src/net_split.c:140-150 | over every run a key is stored exactly when it was brought, or there at the start, with no ten-second silence since and no last-flagged fragment that took it out |
| Reassembly.StaleCorrupts | src/net_split.c:165-200 | the first fragment of an earlier message with the same number is joined to the second of this one; the result is right only if both began alike |
| Reassembly.StaleExample | src/net_split.c:66-90 | two messages of 449 bytes for which it is wrong |
| NetCom.CombineDrops | src/net_split.c:140-200 | bytes stored plus bytes in hand drop by at least five at each level of the recursion |
| NetCom.SplitIsNeverDelivered | src/net_com.c:1355-1382 | at any nesting depth a CMD_SPLIT packet is unwrapped, reported as processed, and never delivered as such |
| NetCom.OnlyFrames | src/net_core.c:804-916 | a packet has an effect only if it is a frame with a terminated name and is decrypted or carries the L0 command; its command then goes to the handlers, and to the user exactly when they do not take it |
| NetCom.Commands.CommandCheck | src/net_com.c:91-248 | dispatch terminates and leaves exactly the specified map, deliveries and answer |
| NetCom.Commands.SplitCallback | src/net_com.c:1355-1382 | combines, runs the dispatcher on a rebuilt packet and gives the user what the dispatcher did not process |
| NetCom.Commands.ProcessPacket | src/net_core.c:804-916 | a received packet is parsed and dispatched, or passed on when it is no frame or its data is not decrypted |
| NetCom.Core.Sendto | src/net_core.c:247-324 | too large data is refused with nothing sent; else exactly the frames of one command go out, in order |
| NetCom.SubPacketLayout | src/net_core.c:274-300 | the length field in front of a buffer recovers exactly the fragment body |
| EndToEnd.FragmentsQuiet | src/net_com.c:1355-1382 | all fragments but the last are stored and deliver nothing |
| EndToEnd.SentIsDelivered | src/net_core.c:247-324 | what is sent, of any permitted length and any command but CMD_SPLIT, is delivered exactly once with the same sender, command and bytes, whatever the receiver's map held |
| EndToEnd.OtherKeeps | src/net_com.c:1355-1382 | however deep its packets are nested, another sender touches no stored fragment of this message |
| EndToEnd.SentIsDeliveredAmidst | src/net_core.c:247-324 | the same when any packets of other senders arrive in between: the sender's own packets deliver exactly the one command |
| AsyncQueue.StepKeepsInv | src/ev_mgr.c:672-692 | every step of any thread or callback keeps the queue invariant |
| AsyncQueue.FifoExactlyOnce | src/ev_mgr.c:1177-1227 | in every interleaving, delivered, in-flight and queued events together are the events that the threads passed in, in the order the lock admitted them, computed from the steps of the run alone |
| AsyncQueue.ThreadOrder | src/ev_mgr.c:672-692 | the events of one thread are posted in the order it entered them, none missing but at most the one it is still posting |
| AsyncQueue.NoLostWakeUp | src/ev_mgr.c:672-692 | a waiting loop with queued events has a signal pending, the idle watcher active, or a poster that still owes its signal |
| AsyncQueue.PollNeverEmpty | src/ev_mgr.c:1190-1214 | after the emptiness test the poll always finds an element |
| AsyncQueue.LoopRunBounded | src/ev_mgr.c:1156-1227 | without posts the loop takes only a bounded number of steps |
| AsyncQueue.StuckMeansDrained | src/ev_mgr.c:1156-1227 | when the loop cannot go on, the queue is empty and everything was delivered |
| AsyncQueue.DrainsCompletely | src/ev_mgr.c:1156-1227 | from any reachable state every maximal run of the loop alone is finite and ends with each posted event delivered once, in order |
| AsyncQueue.PostedHistory | src/ev_mgr.c:672-692 | in every run the history of posts is the sequence that its steps give: for each add, the event of that thread's last call before it |
| Peers.Mesh.ReconnectSend | src/net_recon.c:145-233 | 0, 1 or -1, and the request, record and command that go with the answer |
| Peers.Mesh.CQueCallback | src/net_recon.c:64-130 | the fired record is gone; the request ends or is sent again |
| Peers.Mesh.ProcessAnswer | src/net_recon.c:316-342 | an answer removes the request and its record together |
| Peers.Mesh.ReconnectProcess | src/net_recon.c:269-304 | the r-host tells the two peers of each other and of each other's address and port, or answers that it does not know one |
| Peers.ReconnectDialogue | src/net_recon.c:269-342 | one request to the r-host gives either one answer, which ends exactly that request and record, or exactly two CMD_CONNECT, each with the other's address and port |
| Peers.Mesh.CmdDisconnected | src/net_com.c:1303-1346 | the named peer leaves the table, its event is emitted, and a reconnect is asked for |
| Peers.Mesh.CheckNewPeer | src/net_core.c:695-793 | the table and r-host are those of the specification: the time of the packet is kept, a new peer enters, and who becomes the r-host; what that means is stated by the five rows below |
| Peers.SeenEntry | src/net_core.c:695-793 | a packet leaves its sender in the table, heard now, with the address and port of the packet if it is new and its old ones if it is known; no other entry changes |
| Peers.SeenMode | src/net_core.c:695-793 | its mode becomes that of an r-host exactly when it is made the r-host |
| Peers.TableInRun | src/net_core.c:695-793 | in every run a peer is in the table with a time exactly when it was last heard then, or held then at the start, and no disconnect or removal has named it since |
| Peers.HeardIsAlive | src/ev_mgr.c:836-865 | in every run a peer heard at t, and not dropped since, is not dead up to t + 14, and no sweep removes it |
| Peers.RHostInRun | src/net_core.c:695-793 | in every run a peer is the r-host exactly when it was made so, or was it at the start, and neither disconnected, died nor was followed by another since |
| Peers.Mesh.CheckConnected | src/ev_mgr.c:836-865 | a peer is removed exactly when it has been silent too long |
| Peers.Mesh.IdleActivity | src/ev_mgr.c:1238-1265 | one run removes some dead peer, or stops the watcher exactly when there is none |
| Peers.Mesh.SweepUntilStopped | src/ev_mgr.c:1238-1265 | runs to the end take the number of dead peers plus one, at most table size plus one, and leave exactly the live entries |
| Peers.RunKeepsValid | src/net_recon.c:64-233 | in every run, reconnect requests and callback-queue records correspond one to one |
| Peers.RequestEnds | src/net_recon.c:64-130 | a request ends at a step if and only if its timer finds the peer connected or no r-host, or its answer arrives; else it goes on, resent under a fresh id when its timer fired |
| Peers.RequestEndsInRun | src/net_recon.c:64-342 | a request that is gone after a run was ended in that sense at some step |
| Peers.DisconnectAsks | src/net_com.c:1303-1346 | a disconnect takes exactly the named peer out of the table and leaves a request pending exactly when there was one or an r-host other than the sender |
| Peers.LostPeerIsFollowedUp | src/net_com.c:1327-1343 | a peer lost while an r-host is connected is still being reconnected after any run, unless its request was ended in between |
| Peers.RunCountsRequests | src/net_recon.c:64-233 | over every run, as many CMD_RECONNECT are sent as queue records are created |
| Peers.SecondRequestIsNoOp | src/net_recon.c:145-233 | asking again while a request is pending changes nothing |
| Peers.RequestAnswer | src/net_recon.c:145-233 | 0 exactly when the command went out, with a record under a fresh id; otherwise nothing changes, 1 says that a request is pending and -1 that there is no r-host |
| Peers.RemovalSays | src/ev_mgr.c:788-865 | a dead peer is sent the goodbye, and the r-host a reconnect request if it is another peer and none is pending |
| Peers.CompleteSweep | src/ev_mgr.c:788-865 | a finished sweep in any order leaves exactly this host and the live peers and reports each dead peer once |
| Peers.SweepIsOfDead | src/ev_mgr.c:836-865 | no peer is removed twice, and none that is alive |
| Peers.SweptState | src/net_arp.c:161-197 | removals take out exactly the named entries, one event each |
| PeerPackets.CreateConnect | src/commands_creator.c:65-86 | the buffer is name, address and type with their NULs, then the port |
| PeerPackets.CreateResend | src/commands_creator.c:90-104 | the buffer is the receiver with its NUL, the command and the data |
| PeerPackets.ParseConnect | src/net_com.c:1260-1265 | the pointer walk takes the four fields out, or would leave the packet |
| PeerPackets.ParseResend | src/net_com.c:959-964 | the pointer walk takes receiver, command and data out |
| PeerPackets.ConnectRoundTrip | src/net_com.c:1260-1265 | the handler reads a given command if and only if the packet begins with the bytes built for it |
| PeerPackets.ResendRoundTrip | src/net_com.c:959-964 | the handler reads a given command if and only if the packet is the one built for it |
| PeerPackets.BodyExamples | src/commands_creator.c:65-104 | a CONNECT and a RESEND body written out byte by byte |
| JsonParser.Frozen.CapturePtr | examples/fossa/fossa.c:1052-1066 | begins a token, does nothing without an array, fails on a full one |
| JsonParser.Frozen.CaptureLen | examples/fossa/fossa.c:1068-1074 | sets length and descendant count of one token and no other |
| JsonParser.Frozen.ParseStringToken | examples/fossa/fossa.c:1098-1117 | agrees with the reference scanner, errors and cursor included |
| JsonParser.Frozen.ParseNumber | examples/fossa/fossa.c:1120-1143 | agrees with the reference scanner on sign, fraction and exponent |
| JsonParser.Frozen.ParseArrayTokens | examples/fossa/fossa.c:1146-1158 | appends exactly the flat form of the parsed array, or gives the right error |
| JsonParser.Frozen.ParseObjectTokens | examples/fossa/fossa.c:1227-1239 | appends exactly the flat form of the parsed object, or gives the right error |
| JsonParser.Frozen.ParseValueTokens | examples/fossa/fossa.c:1181-1201 | the mutual recursion ends on every input and appends exactly the flat form of the parsed value |
| JsonParser.ParseJson | examples/fossa/fossa.c:1251-1263 | the answer is the length read or the exact error; the array holds the preorder form of the tree and an end token; an array too small by even one token is reported; INVALID only where no continuation of the text is accepted, INCOMPLETE where one is, but for a cut escape with a wrong digit, and for the start of every accepted text |
| JsonErrors.AnswerIsFinal | examples/fossa/fossa.c:1020-1263 | what is accepted or INVALID has the same answer, tree and cursor whatever is appended; a cut escape with a wrong digit is never accepted |
| JsonErrors.PrefixIsIncomplete | examples/fossa/fossa.c:1020-1263 | every part of an accepted text that ends before its end is INCOMPLETE |
| JsonErrors.IncompleteGoesOn | examples/fossa/fossa.c:1020-1263 | an INCOMPLETE text has an accepted continuation if and only if it does not end in a cut `\u` escape with a wrong digit |
| JsonNesting.ValueNested | examples/fossa/fossa.c:1181-1201 | a parsed value lies within what was read, children inside parents, siblings in order and disjoint |
| JsonNesting.FlatForest | examples/fossa/fossa.c:1052-1074 | in the flat form of such a forest every descendant count spans exactly the subtree, nested inside or behind |
| JsonNesting.AcceptedIsWellNested | examples/fossa/fossa.c:1241-1263 | every accepted text gives a well-nested preorder forest inside the part that was read |
| JsonText.CharsAt | examples/fossa/fossa.c:1098-1117 | a string of plain, escaped, `\u` and UTF-8 characters is scanned exactly to its closing quote |
| JsonText.NumberAt | examples/fossa/fossa.c:1120-1143 | every number of the standard is scanned exactly to its end |
| JsonText.ValueAt | examples/fossa/fossa.c:1181-1201 | the text written for any syntax tree of the dialect is parsed back to that tree, token places and sizes included |
| JsonRead.CharsRead | examples/fossa/fossa.c:1098-1117 | what the string loop accepts is made of such characters |
| JsonRead.NumberRead | examples/fossa/fossa.c:1120-1143 | what the number scanner accepts is such a number, and what follows does not extend it |
| JsonRead.ValueRead | examples/fossa/fossa.c:1181-1201 | every parsed value is the tree of a syntax tree whose text stands there |
| JsonRead.AcceptedIffWritten | examples/fossa/fossa.c:1241-1263 | the parser accepts exactly the texts of the dialect's grammar (the standard, with bare keys, missing and trailing commas and leading zeros), with exactly their trees and ends |
| JsonStandard.StandardTextIsAccepted | examples/fossa/fossa.c:1227-1263 | every standard JSON object, with any white space and anything behind it, is accepted, read exactly to its end, and yields exactly its tree |
| JsonLookup.FindElement | examples/fossa/fossa.c:1300-1314 | skipping by descendant counts stops at the n-th element, or at the end |
| JsonLookup.FindMember | examples/fossa/fossa.c:1300-1314 | skipping by descendant counts stops at the value of the first key with that name, or at the end |
| JsonLookup.FindStep | examples/fossa/fossa.c:1287-1319 | one path step in the array is one step in the tree, unless it reads an index that does not fit an `int` |
| JsonLookup.HoldsKid | examples/fossa/fossa.c:1300-1314 | a child's subtree sits at its offset behind the parent's token |
| JsonLookup.LookupStep | examples/fossa/fossa.c:1280-1320 | plain lookup unfolds path segment by path segment |
| JsonLookup.FindJsonToken | examples/fossa/fossa.c:1286-1320 | for every path that does not reach an index beyond `int`: NULL exactly when plain recursive lookup in the tree fails, and else the token heading the subtree it finds; where it does reach one, an outcome of its own |
| JsonPath.PathReadsBack | examples/fossa/fossa.c:1280-1320 | a path written in the usual way, names with dots and indices in decimal, is read as exactly its steps, and its indices fit an `int` if and only if each is at most 2^31 - 1 |
| JsonPath.Malformed | examples/fossa/fossa.c:1290-1299 | a step is malformed exactly when its bracket does not hold digits, and only digits, up to a closing one |
| JsonPath.FirstKey | examples/fossa/fossa.c:1304-1308 | a name leads behind the first key that has it, and nowhere exactly when no key has it |
| JsonLookup.FitsIsSafe | examples/fossa/fossa.c:1290-1298 | a path whose indices all fit an `int`, which is seen from the path alone, never reaches that outcome |
| JsonLookup.ScanIndex | examples/fossa/fossa.c:1292-1298 | the digit loop stays within `int`, or stops at the digit that would leave it |
| JsonOverflow.OverflowExample | examples/fossa/fossa.c:1292-1298 | on the accepted text `{"a":[1]}` the path `a[4294967296]` names nothing and overflows, while `a[0]` finds the element |
| JsonLookup.AcceptedCanBeSearched | examples/fossa/fossa.c:1251-1320 | the array left for an accepted text is one the lookup may be used on |
| Sha1Transform.ChRewritten | examples/fossa/fossa.c:212-213 | the rewritten choice function is Ch of section 4.1.1 |
| Sha1Transform.MajRewritten | examples/fossa/fossa.c:215 | the rewritten majority function is Maj |
| Sha1Transform.SwapReorders | examples/fossa/fossa.c:193-200 | the swap turns a little-endian load into the big-endian word of section 5.2.1 |
| Sha1Transform.Blk | examples/fossa/fossa.c:210-211 | on the ring, the step yields schedule word i and keeps the last sixteen |
| Sha1Transform.RoundsCh | examples/fossa/fossa.c:228-232 | the unrolled rounds 0 to 19 with rotated registers are those of the plain loop |
| Sha1Transform.RoundsParity | examples/fossa/fossa.c:233-237 | rounds 20 to 39, likewise |
| Sha1Transform.RoundsMaj | examples/fossa/fossa.c:238-242 | rounds 40 to 59, likewise |
| Sha1Transform.RoundsParityAgain | examples/fossa/fossa.c:243-247 | rounds 60 to 79, likewise |
| Sha1Transform.TraceExists | examples/fossa/fossa.c:218-258 | the 80-word schedule and 80 rounds of section 6.1.2 are one trace of schedule words and variables |
| Sha1Transform.Transform | examples/fossa/fossa.c:218-258 | for every state and block, the compression of section 6.1.2 of FIPS 180-4 |
| Sha1Example.DigestOfAbc | examples/fossa/fossa.c:260-310 | the reference gives the published digest of "abc" |
| Sha1.CountAdds | examples/fossa/fossa.c:272-275 | two words with carry count the bits right |
| Sha1.CountsAreTotal | examples/fossa/fossa.c:272-275 | the two words are the total bit length modulo 2^64 |
| Sha1.BranchIsExact | examples/fossa/fossa.c:276-285 | the branch recognises a completed block if and only if the 32-bit sum does not wrap |
| Sha1.BranchExample | examples/fossa/fossa.c:276-285 | one buffered byte and 2^32 - 1 more are taken for too few to fill a block |
| Sha1.AbsorbBlock | examples/fossa/fossa.c:277-283 | bytes that fill the buffer are compressed with what was buffered |
| Sha1Spec.PadIsWhole | examples/fossa/fossa.c:297-303 | the padded message is whole blocks |
| Sha1.CountBytes | examples/fossa/fossa.c:293-296 | the shifted counter bytes are the 64-bit big-endian length field |
| Sha1.PadProgress | examples/fossa/fossa.c:297-302 | the padding loop stops after exactly the zeros of section 5.1.1 |
| Sha1.Context.Update | examples/fossa/fossa.c:269-287 | the context stands for the message so far, one piece longer |
| Sha1.Context.Final | examples/fossa/fossa.c:289-310 | the digest of the whole message |
| Sha1.HashPieces | examples/fossa/fossa.c:260-310 | however a message is cut into updates, each of which passes the 32-bit branch test at its turn, the result is its SHA-1 |
| CoapOptions.OptionList.Add | examples/fossa/fossa.c:6866-6912 | relinking puts one fresh node behind those of its number, and the tail stays the last node |
| CoapOptions.BuiltIsStableSort | examples/fossa/fossa.c:6866-6912 | after any sequence of adds the list is the stable sort by number |
| CoapOptions.StableSortIsUnique | examples/fossa/fossa.c:6866-6912 | there is only one such list |
| CoapOptions.BuiltInOrder | examples/fossa/fossa.c:7050-7132 | options added in order keep their order |
| Coap.ComposableMeans | examples/fossa/fossa.c:7235-7281 | accepted are exactly the messages whose fields fit and whose options are in order and encodable |
| Coap.WhichError | examples/fossa/fossa.c:7235-7281 | which error word a message gets: that of the first field that does not fit, the options last |
| Coap.WrittenFits | examples/fossa/fossa.c:7235-7349 | the reserved size always suffices, and is exact if and only if no number needs a longer extension than its delta |
| Coap.OneReadsBack | examples/fossa/fossa.c:7004-7128 | a written option reads back whatever follows it, and never begins with the payload marker |
| Coap.OptionsReadBack | examples/fossa/fossa.c:7050-7132 | delta-encoded options read back in front of anything |
| Coap.RoundTrip | examples/fossa/fossa.c:6919-7352 | the written bytes parse back to the message without error flag if and only if all option numbers and lengths fit 16 bits |
| Coap.WideNumberExample | examples/fossa/fossa.c:7050-7132 | an option number from 65536 on is composed and does not come back |
| Coap.BufferRoundTrip | examples/fossa/fossa.c:7235-7352 | the buffer with its unwritten rest does so, whatever the rest holds, if and only if in addition nothing is left unwritten |
| Coap.ParsedSmall | examples/fossa/fossa.c:7050-7132 | parsing never yields a number or length beyond 16 bits |
| Coap.SlackExample | examples/fossa/fossa.c:7263 | options 11 and 15 leave one byte unwritten |
| CoapMessage.Message.CalculatePacketSize | examples/fossa/fossa.c:7235-7281 | the loop over the linked list adds up the reserved size or gives the field in error |
| CoapMessage.Message.Compose | examples/fossa/fossa.c:7283-7352 | on success the buffer grows by the reserved size and begins, behind its old content, with the bytes of the message; on error it is unchanged |
| CoapMessage.Message.Parse | examples/fossa/fossa.c:7134-7159 | flags and fields are those of the reference parser for every input; which bytes that accepts, as what, is stated by the rows of CoapWire |
| CoapWire.DatagramIsAccepted | examples/fossa/fossa.c:6919-7159 | every datagram of section 3 of RFC 7252, in any legal encoding of its options, is accepted with exactly its fields and flag word, option numbers and lengths modulo 65536 |
| CoapWire.AnswersAreExact | examples/fossa/fossa.c:6919-7159 | for every sequence of bytes: no error bit if and only if it is such a datagram, a lone marker included; IGNORE if and only if the version is not 1; a format error if and only if the token length is over 8 or an option has a nibble of 15; not enough data if and only if the header, the token or an option is cut |
| CoapWire.PiecesFound | examples/fossa/fossa.c:7050-7132 | the option loop takes any bytes apart into whole options and what stops it |
| CoapWire.LoneMarkerAccepted | examples/fossa/fossa.c:7134-7159 | a marker with nothing behind it is accepted as an empty payload |
| CoapWire.Examples | examples/fossa/fossa.c:6983-6991 | the truncated datagram 44 01 00 07, and a whole one field by field |
| CoapMessage.Message.GetOptions | examples/fossa/fossa.c:7050-7132 | the options read are added in turn, or all dropped on an error |
| Mbuf.Buffer.Insert | examples/fossa/fossa.c:132-163 | the data appears at the offset, everything else is kept, across reallocation |
| Mbuf.Buffer.Append | examples/fossa/fossa.c:165-167 | the data follows the old content |
| Mbuf.Buffer.Remove | examples/fossa/fossa.c:169-174 | the first bytes go, or nothing when there are too few |
| WebSocket.MaskedTwice | examples/fossa/fossa.c:3169-3174 | masking twice with one key gives the data back |
| WebSocket.XorBitwise | examples/fossa/fossa.c:3169-3174 | a bit of the exclusive or is set exactly when one of the two operands has it |
| WebSocket.MaskedBits | examples/fossa/fossa.c:3169-3174 | byte i of masked data is byte i of the data exclusive-or key byte i modulo 4, bit by bit |
| WebSocket.DeliveredBits | examples/fossa/fossa.c:3126-3210 | what is delivered of any buffer is its bytes, exclusive-or the key in front of them when the mask bit is set, bit by bit |
| WebSocket.StandardExamples | examples/fossa/fossa.c:3126-3210 | the plain and the masked "Hello" of section 5.7 of RFC 6455 |
| WebSocket.LongHeaders | examples/fossa/fossa.c:3212-3235 | the headers of its 256-byte and 64-KiB examples |
| WebSocket.WsHeader | examples/fossa/fossa.c:3212-3235 | the final bit and opcode, then the 7-bit, 16-bit or 64-bit length |
| WebSocket.SendFrame | examples/fossa/fossa.c:3237-3245 | exactly one unmasked frame is appended |
| WebSocket.WholeFrame | examples/fossa/fossa.c:3126-3210 | a whole frame at the front is delivered and cut off, whatever follows |
| WebSocket.PartialFrame | examples/fossa/fossa.c:3126-3160 | of a strict prefix of a frame nothing is consumed, if and only if the prefix is not taken for a partly joined message; never for frames that need no joining |
| WebSocket.PrefixTakenForMessage | examples/fossa/fossa.c:3135-3144 | the first 200 bytes of a continuation frame of 65535 zeros are so taken with defragmentation on, and two bytes of it read as a whole frame |
| WebSocket.DrainedPrefix | examples/fossa/fossa.c:3283-3291 | the loop delivers exactly the whole frames present, in order, on the start of a stream of such frames |
| WebSocket.CutInTwo | examples/fossa/fossa.c:3283-3291 | reading in two goes finds the same frames as reading at once |
| WebSocket.ChunksDeliver | examples/fossa/fossa.c:3283-3291 | any cutting of such a stream into chunks delivers exactly the whole frames and keeps the unfinished one |
| WebSocket.StreamDelivered | examples/fossa/fossa.c:3126-3291 | every cutting of the stream of any frames that this receiver does not join (none that are fragments, or defragmentation off) delivers those frames, in order, once, and leaves nothing |
| WebSocket.FlagIs | examples/fossa/fossa.c:3203-3206 | after the loop over a received buffer the flag is set exactly when a whole frame other than the first is a close frame, or what is left over starts with one, or nothing is left and the last frame is one |
| WebSocket.CloseMissedOrEarly | examples/fossa/fossa.c:3197-3206 | exactly when the flag misses a delivered close frame, and exactly when it is set without one |
| WebSocket.NoticedIff | examples/fossa/fossa.c:3283-3291 | over a stream cut into chunks the flag is set exactly when some chunk completes frames of which one but its first is a close frame, or its last is and ends the chunk, or behind which a close frame starts |
| WebSocket.FinalCloseNoticed | examples/fossa/fossa.c:3283-3291 | a close frame that ends the stream is noticed, however the stream is cut |
| WebSocket.NoticedIsClose | examples/fossa/fossa.c:3283-3291 | a stream without close frames never sets the flag, however it is cut |
| WebSocket.CutMatters | examples/fossa/fossa.c:3197-3206 | a close frame with a text frame behind it is missed in one chunk and noticed in two |
| WebSocket.Connection.Unmask | examples/fossa/fossa.c:3169-3174 | unmasks the data in place and changes no other byte; WebSocket.MaskedBits says what unmasking does to each bit |
| WebSocket.Connection.Deliver | examples/fossa/fossa.c:3126-3210 | one call consumes and delivers one frame, or leaves the buffer unchanged when no whole frame is there, or reports a path whose effect is not modelled |
| WebSocket.Connection.Receive | examples/fossa/fossa.c:3283-3291 | a chunk is appended and the loop delivers, leaves and flags what its specification says; where it ends on a path that is not modelled, what came before that stands |
| Glob.MatchPrefix | examples/fossa/fossa.c:5512-5548 | the loops and recursion compute the specified match length |
| Glob.GreedyIsLexicographic | examples/fossa/fossa.c:5527-5541 | backtracking finds the assignment of star lengths that is largest from the left, or there is none |
| Glob.MatchedIsGreediest | examples/fossa/fossa.c:5512-5548 | without a bar, -1 exactly when no lengths of the stars make a prefix match, else the length of that greediest match |
| GlobMeaning.TryMeans | examples/fossa/fossa.c:5523-5547 | lengths of the stars make a match of n bytes exactly when the string's first n bytes are cut into pieces of which the tokens of the pattern stand for one each: a letter in either case, any byte, bytes without a slash, any bytes, the end |
| GlobMeaning.MatchMeans | examples/fossa/fossa.c:5523-5547 | without a bar, -1 exactly when there is no such cut, else the length of one |
| Glob.AlternativesMissed | examples/fossa/fossa.c:5516-5522 | with bars, -1 exactly when the last alternative fails and the code's choice for each other takes no byte |
| Glob.GreedyMeans | examples/fossa/fossa.c:5523-5547 | there is one greediest match at most, and the code finds it |
| Glob.WholeMatch | examples/fossa/fossa.c:5516-5522 | the answer is that of the first alternative whose greediest match takes a byte, else of the last: its greediest length, or -1 when no lengths match |
| Glob.MatchLost | examples/fossa/fossa.c:5516-5522 | the whole fails although an alternative matches, exactly when the last does not match and those before it that do take no byte |
| Glob.EmptyMatchIsLost | examples/fossa/fossa.c:5516-5522 | a pattern whose alternative matches while the whole does not |
| Base64.EncodedLength | examples/fossa/fossa.c:567-590 | four digits for every three bytes begun |
| Base64.RoundTrip | examples/fossa/fossa.c:567-649 | decoding an encoding gives the bytes back and consumes all of it |
| Base64.AlphabetIs | examples/fossa/fossa.c:568-569 | the digits are those of table 1 of RFC 4648 |
| Base64.DigitOf | examples/fossa/fossa.c:593-630 | a byte stands for a value exactly if it is its digit, or that with the highest bit set |
| Base64.DecodesAGroup | examples/fossa/fossa.c:632-649 | any four digits decode to the three bytes of their 24-bit number |
| Base64.DecodesTheLast | examples/fossa/fossa.c:632-649 | one or two padding bytes end the decoding with the two or one whole bytes there are |
| Base64.DecodesNothing | examples/fossa/fossa.c:632-649 | decoding stops, with nothing consumed, exactly at fewer than four bytes or a foreign byte among four |
| Base64.Encode | examples/fossa/fossa.c:567-590 | the loop fills the destination with the encoding of RFC 4648 and a NUL, and nothing behind it |
| Base64.Decode | examples/fossa/fossa.c:632-649 | the loop stores what the reference decoder yields, for every input, and answers what was consumed |

## Left out

The environment, which becomes parameters or assumptions:

- Sockets, DNS, timers, threads and logging. Times are parameters; a received packet is a sequence of bytes.
- Encryption: a packet is plain, or flagged as not decrypted. TR-UDP is taken to deliver in order per peer.
- libev, libpbl and the callback queue are taken at their word: a signal is a coalescing flag cleared before its callback, a map add replaces, a queue record has a fresh id and fires at most once.
- Memory allocation is taken to succeed; ownership and leaks are not modelled.
- A 64-bit `size_t` and a little-endian host.

What a member does not capture:

- NetSplit.Splitter.Combine: split packets under four bytes, or with an empty first fragment, are excluded by its precondition; the dispatcher has the outcome Malformed for them, where the C code reads outside the packet.
- NetSplit.Splitter.SplitPacket: the unused bytes at the end of a sub-packet buffer are not part of it.
- NetCom.Commands.CommandCheck: what the handlers of the other commands do is one parameter that tells whether they report a packet as processed.
- NetCom.Commands.ProcessPacket: decryption is a flag that tells whether it took place; the entry of the sender into the peer table is the subject of Peers.Mesh.CheckNewPeer.
- NetCom.Core.Sendto: the state of the peer's channel and its failures are not modelled.
- EndToEnd.SentIsDelivered: nothing else arrives between the packets; EndToEnd.SentIsDeliveredAmidst lets other senders in between. The sender's own channel keeps order, so its own other packets do not come in between.
- EndToEnd.SentIsDeliveredAmidst: when a packet of another sender is malformed, the C code reads outside it, and nothing is said from there on.
- AsyncQueue.StepKeepsInv: the queue is enabled, the element's length does not lose bits when stored, and an element without data is the same as one with empty data.
- Peers.RunKeepsValid: echo requests and CONNECT_R packets sent to peers, metrics, subscriptions and allocation errors are not recorded.
- Peers.Mesh.ReconnectProcess: a command goes to a peer in the table or nowhere; sending by peer type or into another network is not modelled.
- Peers.Mesh.CmdDisconnected: the goodbye of src/net_core.c:602-613 has no data, and the handler reads the byte behind the packet all the same; the model takes whatever string stands there as the name, and does not say what it is.
- Peers.Mesh.CheckNewPeer: the requests for host information and the resending of the new peer's address are not recorded; names and addresses are not cut to the size of their C buffers.
- Peers.Mesh.IdleActivity: the order in which the table is walked is any order.
- PeerPackets.ParseConnect: what the handlers do with the fields, and reads behind the end of a packet.
- JsonParser.ParseJson: the growing token array of `parse_json2` is not modelled, nor an int overflow of an offset; without room for a token behind the end token nothing is written, as in the C code.
- JsonLookup.FindJsonToken: what happens after an index overflows is undefined in C and is only the outcome Overflow here.
- Sha1.Context.Update: pieces for which the 32-bit branch test would wrap are excluded, because there the C code copies past its buffer; Sha1.BranchIsExact says which these are.
- CoapMessage.Message.Parse: after an error in the header or the token the C structure keeps the token length it read, with no bytes to it; the model leaves the token empty.
- Coap.RoundTrip: parsed values are copies, where the C code keeps pointers into the buffer.
- WebSocket.StreamDelivered: frames that are fragments of a longer message are outside it unless defragmentation is switched off; the path that joins them is the outcome Defragmenting, and a 64-bit length that wraps is the outcome Wild.
- WebSocket.Connection.Deliver: the path that joins fragments in place is the one outcome Defragmenting, whose effect on the buffer is not modelled.
- WebSocket.SendFrame: the payload is shorter than 2^64 - 14 bytes.
- Glob.MatchPrefix: pattern and string hold no NUL, the pattern ends at its length, and case folding is that of the C locale.
- Base64.Encode: lengths do not overflow an int.

Parts of the repository that would add only repeats or easy members, or are foreign calls: MD5 and
HMAC, MQTT, DNS, HTTP and its chunked encoding, the file server, the JSON-RPC helpers; in the mesh
the database, multi-network, L0, VPN, stream, metric and subscription modules, the terminal
interface, and the C++ and Go wrappers.
