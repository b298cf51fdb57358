# A model of the aprs-utils file transfer

`aprs-file-copy` sends small files over amateur packet radio. A file is cut into chunks, each chunk (and a
header) becomes a packet, each packet is cut into numbered fragments that are sent several times over, and
each fragment travels as base64 text in an AX.25 frame inside a KISS frame. Nothing is acknowledged: frames
are lost, repeated and relayed. The receiver puts fragments and chunks together again and writes the file as
it grows.

This project models both ends, from the bytes at the TNC to the files on the disk, and proves what arrives.
Bytes are 8-bit vectors, so shifts and masks are the program's own. `uint32_t` counters wrap. `LOGFATAL`,
which exits the process, and the one uncaught exception are outcomes (`Abort`, `Exit`, `Crash`, `None`), not
preconditions. The classes `PacketChunkReceiver`, `FileReceiver`, `AprsStation` and `FileSender` have the
program's fields and loops; each method is proved against a function on values, and the theorems are about
those functions.

## How it fits together

| file | what it holds |
|---|---|
| `Basics.dfy`, `Proto.dfy` | bytes, 32-bit words, optional values, the protocol messages |
| `Numbered.dfy`, `Cutting.dfy` | lists of numbered pieces (sorting, joining, the pieces held so far) and the cutting loop; both layers use them |
| `IdGenerator.dfy` | payload and transfer ids |
| `Reassembly.dfy`, `Delivery.dfy`, `PacketReceiver.dfy` | the packet layer: the machine with one cell per payload, its theorems, the program's two vectors |
| `FileAssembly.dfy`, `Transfers.dfy`, `FileRuns.dfy`, `FileReception.dfy` | the file layer: the machine with one tracker per transfer, its closed form on what a sender sends, theorems about runs, the program's vector of trackers |
| `Kiss.dfy`, `Ax25.dfy`, `Link.dfy` | framing and addressing |
| `Broadcast.dfy`, `Station.dfy`, `FileSending.dfy` | what goes on the air, with clock and pacing; the station; the file sender |
| `EndToEnd.dfy`, `Arrivals.dfy`, `Senders.dfy`, `FullStack.dfy` | the layers together: on fragments, as conditions on the fragments that arrive, from several senders, and with the bytes |

The theorems that everything leads to are `FullStack.FileCrossesTheAir` (delivery; `FullStack.SendAndReceive`
runs it), `FullStack.DiskIsSafe` (safety), `FullStack.FinishesExactly` (when a file arrives, exactly) and
`FullStack.FilesInTurn` (several files). Their hypotheses are spelled out in their `requires` clauses: the
foreign codecs round-trip and base64 text holds neither 0xc0 nor 0xdb (`Station.Reliable`); serialized packets
are not empty and shorter than 2^32, and a file makes at most 2^32 - 1 of them (`EndToEnd.GoodSession`);
different payloads have different payload ids (the map `Delivery.Air`; programs start from the clock). That
different transfers have different transfer ids is assumed only where a theorem says so (`EndToEnd.Carries`,
`Senders.OwnId`): programs start that counter at 0, and `Senders` says what follows. Every lemma carries
`{:induction false}`: the proofs do their inductions themselves.

## Where the code does less than it means to

The code is modelled as it is written. Where that falls short, a lemma shows a concrete case and another
says exactly when the code does what it is for.

| behaviour | concrete case | exactly when it works |
|---|---|---|
| SSID mask 0x17 drops SSID bit 2; eight digipeaters can be sent but are rejected on receipt | `Link.Losses` | `Ax25.RoundTripExactly`, `Ax25.HeardExactly` |
| KISS escapes compare a `char` with 0xc0 and 0xdb, which never holds where `char` is signed | `Kiss.SignedCharCuts` | `Kiss.SurvivesExactly`, `Link.LinkExactly` |
| decoder flags survive an empty frame or a bad header, so noise can be taken for a frame, and a delimiter serves one frame only | `Kiss.NoiseAfterEmptyFrame`, `Kiss.SharedDelimiter` | `Kiss.ReadAfterAnythingExactly` after any bytes, `Kiss.NoiseAfterEmptyExactly` after an empty frame, `Kiss.PlainNoise` for noise without escapes |
| a header never triggers a write or a completion check | `FileRuns.HeaderAfterChunk` | `FileRuns.FinishedExactly`, `FileRuns.Confluence` |
| a tracker without header and chunk 1 is "completed" by its second chunk, loses its id, and ends the program | `FileRuns.EarlyExit` | `FileRuns.ExitsExactly`, `Arrivals.ExitsExactly`, `Transfers.SingleTransfer` |
| a frame to the broadcast callsign without payload ends the program (`substr(1)` of an empty string) | `Station.EmptyPayloadCrashes` | `Station.CrashesExactly`, `FullStack.RunsExactly` |
| a payload without the opening brace is reported as invalid and handled all the same | `Station.BraceUnread` | it never is refused |
| transfer ids come from a counter that every program starts at 0, so files of different programs share id 1: a later file is ignored, a concurrent one is merged | `Senders.SecondProgramIsLost`, `Senders.MergedFiles` | `FullStack.SecondFileExactly`, `FullStack.FilesInTurn`; `FullStack.DiskIsSafe` for ids of their own |
| a sender that makes 2^32 packets of a file gives two of them one payload id | a file of 2^32 - 1 bytes in chunks of 1 | `IdGenerator.IdsSufficeExactly`: at most 2^32 - 1 packets |
| empty files are announced and never written | `FileRuns.EmptyFile` | it never works |

`char` signedness is the parameter `signedChar` throughout, so each theorem covers both kinds of compiler.

## Model

| member | source | states |
|---|---|---|
| FullStack.SendAndReceive | aprs_file_copy/file_sender.cc:34-101 | Sender, air and receiver run one after the other: when sending succeeds over an air that gets the session through, the receiver runs on and its disk holds exactly the file, under its base name; if the socket fails in between, nothing is promised; sending does not end in any other way |
| FullStack.FileCrossesTheAir | aprs_file_copy/file_sender.cc:53-101 | Delivery through the bytes: any nonempty file under 2^32 bytes that makes at most 2^32 - 1 packets (one more would use a payload id twice), all chunk and fragment sizes and retransmission counts; if the air keeps frame order, loses, repeats and relays, but gets each fragment through once, among frames of others, damaged frames, stray delimiters and noise that does no harm, the receiving program never exits, the transfer is complete and the disk holds exactly the file |
| FullStack.ClearAirGetsThrough | net/aprs_interface.cc:48-80 | With at least one round, an air that delivers each transmission once, without noise, meets the hypotheses of the delivery theorems, for any session |
| FullStack.FileArrives | net/aprs_interface.cc:85-122 | The same of any input at all whose fragments are in order and each there at least once, and in which no frame crashes the program |
| FullStack.DiskIsSafe | aprs_file_copy/file_receiver.cc:169-197 | Safety through the whole program, on any bytes whose fragments are of payloads that were sent, in any order and number: every write made for a transfer whose id no other transfer on the air has, also before an exit or a crash, is a nonempty prefix of its file, under its name, and extends the write before; of the other payloads nothing is asked |
| FullStack.RunsExactly | aprs_file_copy/file_receiver.cc:73-78 | On any such bytes the program still runs if and only if no frame crashed it and no arrival made it exit, with the exit given on the fragments that arrived; transfers may share ids, chunks need only be numbered from 1 and not empty |
| FullStack.FinishesExactly | aprs_file_copy/file_receiver.cc:186-204 | On any such bytes a transfer with an id of its own is complete and the program running if and only if, besides, its header's fragments were in before the last missing chunk's and never were two chunks in but neither header nor chunk 1; then its last write is the whole file, and if its name is its own too this is exactly when the disk holds the file under its name |
| FullStack.SentFileIsSafe | aprs_file_copy/file_sender.cc:53-101 | The safety theorem from the senders: for any number of files being sent at once with different payload ids, any selection and order of their fragments, and a file whose transfer id no other of them has |
| FullStack.SentFileFinishes | aprs_file_copy/file_sender.cc:53-101 | The same for completion, with the file on the disk if its name is its own |
| FullStack.FilesInTurn | aprs_file_copy/file_receiver.cc:111-140 | Files sent one after another, each getting through: the program runs on and its disk holds exactly those whose transfer id was not used before |
| FullStack.SecondFileExactly | aprs_file_copy/file_receiver.cc:111-140 | Of two files one after another the second is on the disk if and only if its transfer id differs from the first one's, or it is the first file over again |
| Senders.ClearAirArrives | net/aprs_interface.cc:48-80 | With at least one round, a sending over an air that delivers each transmission once arrives as those theorems ask |
| Senders.SendersAreHonest | aprs_file_copy/file_sender.cc:78-101 | What any number of senders with different payload ids put on the air meets the hypotheses of the theorems about arbitrary arrivals |
| Senders.OwnIdIsCarried | aprs_file_copy/file_sender.cc:47-50 | A sending whose transfer id no other has is the only one the payloads with that id are about |
| Senders.UsedSession | aprs_file_copy/file_receiver.cc:111-140 | Once a transfer is complete, nothing that comes with its id, from whichever sender, is written or changes a tracker |
| Senders.SecondProgramIsLost | aprs_file_copy/file_sender.cc:30-32 | Every program's first transfer has id 1, so the second of two files with different names from two programs never reaches the disk |
| Senders.OneProgramDelivers | aprs_file_copy/file_sender.cc:103-110 | Two files from one program have different ids, from any counter, and both are delivered |
| Senders.MergedFiles | aprs_file_copy/file_receiver.cc:111-116 | Two transfers with one id at the same time: the second header replaces the first, and the first file's bytes are written under the second file's name |
| Senders.ReportedConcat | net/packet_chunk_receiver.cc:53-80 | For arbitrary traffic, what arrives after traffic with other payload ids is reported as if it came alone |
| FullStack.ReceiveFiles | aprs_file_copy/file_receiver.cc:37-63 | The receive loop leaves tracker, disk and write history as the endpoint function says, also when it stops early, and stops early exactly when that function says the program exits |
| FullStack.InputIsRun | net/aprs_interface.cc:90-121 | Reading any bytes whose fragments are honest is running the packet layer on those fragments and the file layer on what it reports, up to a frame that crashes the program; everything else in the input leaves no trace, and the deserialize exit is unreachable |
| FullStack.LineHeard | net/aprs_interface.cc:90-121 | What the receiver hears on a line of copies, relays, other frames, delimiters and harmless noise is exactly the fragments that got through |
| FullStack.FragmentHeard | net/aprs_interface.cc:97-119 | A fragment's frame is interpreted as that fragment, whatever its source and its at most seven digipeaters |
| FullStack.FragmentPlain | net/tnc_aprs_interface.cc:200-208 | A base64 payload under ordinary callsigns needs no escape, so a signed `char` does no harm to this traffic |
| FullStack.ReceiveIsStep | net/aprs_interface.cc:85-122 | One call of the packet receive is one step of the endpoint, on every input, and consumes input when it returns a packet or a bad frame |
| EndToEnd.FileIsDelivered | aprs_file_copy/file_sender.cc:53-101 | The delivery theorem on fragments: file cutting, fragmentation, reassembly and file reassembly compose to the identity over an order-keeping channel |
| EndToEnd.DeliveredInOrder | net/aprs_interface.cc:48-80 | Over such a channel the packets reported are exactly the packets sent, each once, in order |
| EndToEnd.WritesAreSafe | aprs_file_copy/file_receiver.cc:169-197 | The safety theorem on fragments, for a transfer whose id no other on the air has, whatever else is on the air and whether or not the program exits in the end |
| EndToEnd.FinishedExactly | aprs_file_copy/file_receiver.cc:186-204 | In any run that has not exited, a transfer with an id of its own is complete if and only if, among the packets reported, its header came before the last missing chunk and no two later chunks came before both header and chunk 1; then its last write is the whole file, and with a name of its own this is exactly when the disk holds it |
| Arrivals.FinishesExactly | aprs_file_copy/file_receiver.cc:119-205 | The same on the fragments that arrive, together with the condition that the program has not exited |
| Arrivals.ExitsExactly | aprs_file_copy/file_receiver.cc:73-86 | The program exits if and only if some arrival completes a packet when a transfer that had two chunks in, but neither header nor chunk 1, is that packet's transfer or started before it; also when transfers share ids |
| EndToEnd.ReportedExactly | net/packet_chunk_receiver.cc:71-79 | A packet is reported if and only if all fragments of some payload carrying it have arrived |
| Reassembly.PayloadsAreIndependent | net/packet_chunk_receiver.cc:53-80 | For arbitrary traffic, a payload's state and outcomes are those of its own fragments alone |
| Reassembly.ReportedAtMostOnce | net/packet_chunk_receiver.cc:44-51 | For arbitrary traffic, no payload id is reported twice |
| Delivery.StateIsTheSetSeen | net/packet_chunk_receiver.cc:53-96 | With honest fragments each payload's state is a function of the set of fragment numbers seen: nothing, a partial packet holding exactly those pieces in order, or done |
| Delivery.OrderDoesNotMatter | net/packet_chunk_receiver.cc:53-96 | Two runs that saw the same fragments, in whatever orders and however often, end in the same state |
| Delivery.ReportedWhenComplete | net/packet_chunk_receiver.cc:71-92 | A packet is reported exactly at the step where its last missing fragment first arrives, and it is the packet sent; the exit is not reached |
| Delivery.ReportedExactlyOnce | net/packet_chunk_receiver.cc:44-97 | A payload all of whose fragments arrive is reported at exactly one step |
| Delivery.ByteCountIsExact | net/packet_chunk_receiver.cc:99-125 | For distinct fragments of one payload in any order, the sorted list starts with the total and adds up to it if and only if none is missing, and then joins to the packet |
| PacketReceiver.PacketChunkReceiver.PushPacketChunk | net/packet_chunk_receiver.cc:28-97 | The two vectors move as the cells do and report the same; afterwards every partial packet is nonempty, about one payload and strictly sorted, ids are distinct, completed ids do not repeat and are disjoint from the partial ones |
| PacketReceiver.PacketChunkReceiver.IsComplete | net/packet_chunk_receiver.cc:99-131 | Sorting, joining, the size test and the parse, against the abstract completion test |
| PacketReceiver.StandForOne | net/packet_chunk_receiver.h:48-52 | The two vectors determine the abstract state |
| Numbered.SortIsTheSort | net/packet_chunk_receiver.cc:100-103 | Any sorted permutation of pieces with different numbers is the one the model uses, so `std::sort` has no other choice |
| Numbered.HeldInsert | net/packet_chunk_receiver.cc:72-73 | Appending a new piece and sorting is adding its number to the set held |
| Numbered.HeldBytes | net/packet_chunk_receiver.cc:105-121 | The bytes held reach the total exactly when no piece is missing |
| FileAssembly.TransfersAreIndependent | aprs_file_copy/file_receiver.cc:80-89 | For arbitrary packets, in a run that has not exited, a transfer's tracker and writes are those of its own packets alone |
| FileAssembly.HeaderFirstNeverExits | aprs_file_copy/file_receiver.cc:68-78 | If every chunk comes after a header of its transfer, the exit in `GetId` is never reached, whatever the packets say |
| FileAssembly.RunOk | aprs_file_copy/file_receiver.cc:91-206 | In every run chunk lists are strictly sorted and about their tracker's id, and only a tracker that is complete or has a header is empty |
| FileAssembly.LostId | aprs_file_copy/file_receiver.cc:68-78 | A tracker cannot tell its id exactly when it was completed without a header |
| FileAssembly.UntilIsRun | aprs_file_copy/file_receiver.cc:68-78 | The state a run leaves is the state after its longest prefix without an exit; after the exit nothing changes |
| FileAssembly.CompletedStays | aprs_file_copy/file_receiver.cc:111-140 | Completion is absorbing: the tracker does not change and nothing is written for it again |
| Transfers.SingleTransfer | aprs_file_copy/file_receiver.cc:91-206 | The closed form: for one transfer's packets in any order, whether the program exited, the tracker, and the exact list of writes, as functions of what arrived |
| Transfers.PrefixShape | aprs_file_copy/file_receiver.cc:176-199 | The gapless contents are a prefix of the file, empty without chunk 1, and reach the header's size exactly when no chunk is missing |
| Transfers.AbsorbEarly | aprs_file_copy/file_receiver.cc:169-204 | A second chunk without header and without chunk 1 passes for the end of the transfer |
| FileRuns.FinishedExactly | aprs_file_copy/file_receiver.cc:119-205 | One transfer finishes if and only if its header came before the last missing chunk and no two later chunks came before both header and chunk 1 |
| FileRuns.Confluence | aprs_file_copy/file_receiver.cc:139-205 | Once a header is in, wherever it came, and the tracker was not lost, tracker and disk depend only on the set of chunks that arrived and on whether one of them was new after the header; the whole file is on disk exactly when the set is full and one was |
| FileRuns.WritesArePrefixes | aprs_file_copy/file_receiver.cc:176-197 | Each write is a nonempty prefix of the file and extends the write before |
| FileRuns.LastWriteIsCurrent | aprs_file_copy/file_receiver.cc:186-196 | For packets in any order, the last write is the longest gapless prefix, and there is one exactly when chunk 1 is in and a new chunk came after the header |
| FileRuns.FinishedIsWritten | aprs_file_copy/file_receiver.cc:186-204 | When a transfer completes, the last write is the whole file |
| FileRuns.EachTransfer | aprs_file_copy/file_receiver.cc:80-89 | Among any packets at all, a transfer whose id is its own fares as it would alone |
| FileRuns.FileOnDisk | aprs_file_copy/file_receiver.cc:186-197 | What is on the disk under a name only one transfer announces: the longest gapless prefix of its file, from the first new chunk after the header that leaves chunk 1 in |
| FileRuns.LostIsDoomed | aprs_file_copy/file_receiver.cc:68-78 | Also when transfers share an id, a tracker has lost it if and only if two chunks were in at some moment without header and chunk 1 |
| FileRuns.ExitsExactly | aprs_file_copy/file_receiver.cc:73-86 | The program exits exactly at a packet of some transfer when a transfer that started no later has lost its id; transfers may share ids, chunks need only be numbered from 1 and not empty |
| FileRuns.LateHeader | aprs_file_copy/file_receiver.cc:113-116 | If all chunks come before the header, nothing is ever written and the transfer never completes |
| FileRuns.HeaderAfterChunk | aprs_file_copy/file_receiver.cc:113-138 | A concrete case of that |
| FileRuns.EarlyExit | aprs_file_copy/file_receiver.cc:199-204 | Chunks 2 and 3 before the header: the next packet ends the program |
| FileRuns.EmptyFile | aprs_file_copy/file_sender.cc:55-66 | An empty file is never written and never complete |
| FileReception.FileReceiver.GetFileChunksForId | aprs_file_copy/file_receiver.cc:80-89 | Finds the tracker of an id, or finds none, or exits exactly when a tracker without id stands before it |
| FileReception.FileReceiver.HandleTransferHeader | aprs_file_copy/file_receiver.cc:91-117 | The vector of trackers, the disk and the writes move as the abstract state does; exits exactly when it does |
| FileReception.FileReceiver.HandleTransferChunk | aprs_file_copy/file_receiver.cc:119-206 | The same for a chunk |
| FileReception.AbsorbChunk | aprs_file_copy/file_receiver.cc:153-204 | Duplicate scan, sort, contents, write decision and completion test, against the abstract tracker step |
| FileReception.GatherContents | aprs_file_copy/file_receiver.cc:176-184 | The loop with its 32-bit counter returns the chunks 1, 2, 3, ... up to the first gap |
| Cutting.CutIsUnique | net/aprs_interface.cc:51-74 | The cutting loop's pieces are the only list of full pieces, except a nonempty last, that joins back to the data |
| Cutting.CutIsEven | net/aprs_interface.cc:51-74 | Nonempty pieces of full size except the last; their number n satisfies (n-1)*max < size <= n*max |
| Cutting.CutPrefix | aprs_file_copy/file_sender.cc:55-66 | The first j pieces hold the first j*max bytes |
| Broadcast.RoundsAt | net/aprs_interface.cc:49-80 | Transmission j of a packet of n fragments is fragment j mod n + 1 in round j div n + 1, with the total size on fragment 1 only |
| Broadcast.PacingBound | net/aprs_interface.cc:76-78 | By any time t at most floor((t-start)/interval)+1 fragments of a packet have gone out |
| IdGenerator.IdsDiffer | net/aprs_interface.cc:124-131 | From any seed no id is 0, and two ids are equal exactly when a multiple of 2^32-1 apart |
| IdGenerator.IdsSufficeExactly | net/aprs_interface.cc:124-131 | From any seed, n ids in a row are all different if and only if n is at most 2^32 - 1 |
| Station.AprsStation.GetNextPayloadId | net/aprs_interface.cc:124-131 | The counter and its result are those of the id generator |
| Station.AprsStation.SendBroadcastPacket | net/aprs_interface.cc:37-83 | What goes to the TNC is the frames of the packet's trace in order, all of it unless the link fails, the j-th not before start + j*interval |
| Station.AprsStation.SendRound | net/aprs_interface.cc:50-79 | One retransmission round: every fragment once, with its number, size and piece |
| Station.AprsStation.SleepUntil | util/time.cc:34-39 | Time does not go backwards and reaches the requested time |
| Station.AprsStation.Send | net/tnc_aprs_interface.cc:59-92 | Exits exactly on addresses that cannot be encoded; otherwise hands the framed payload to the socket, which may fail |
| Station.AprsStation.EncodeAddresses | net/tnc_aprs_interface.cc:67-74 | The address loop gives the address list, or exits exactly on an address that cannot be encoded |
| Station.AprsStation.SendPacketChunk | net/aprs_interface.cc:133-144 | Serializes, encodes as text behind the opening brace, and sends |
| Station.AprsStation.Receive | net/tnc_aprs_interface.cc:94-144 | Decodes one KISS frame and parses it; the digipeaters heard are appended to the caller's list, which is not cleared |
| Station.AprsStation.ReceiveBroadcastPacket | net/aprs_interface.cc:85-122 | Reads frames and pushes fragments until a packet, a bad frame, the end of input, or an exit, as the receive function says; a packet comes with the source of the frame that completed it; the digipeaters of all frames read, rejected and foreign ones too, pile up in the list |
| Station.CrashesExactly | net/aprs_interface.cc:97-104 | A frame ends the program if and only if it is well formed, to the broadcast callsign, and stops after the protocol byte |
| Station.SentCrashes | net/aprs_interface.cc:97-104 | Of the frames a station can send, exactly those without payload, to what is heard as the broadcast callsign, through at most seven digipeaters |
| Station.EmptyPayloadCrashes | net/aprs_interface.cc:97-104 | A concrete frame of sixteen bytes that does |
| Station.BraceUnread | net/aprs_interface.cc:98-104 | The opening brace is skipped without being checked: a payload counts the same whatever its first character |
| FileSending.FileSender.Send | aprs_file_copy/file_sender.cc:34-76 | What goes on the air for a file is the trace of header, with the base name of the path, and chunks from the station's payload counter, or a prefix of it if the link fails; nothing for an unreadable file or a named peer |
| FileSending.BaseName | aprs_file_copy/file_sender.cc:37-38 | The part of a path after its last slash: it has no slash, ends the path, and follows a slash unless it is the whole path |
| FileSending.FileSender.SendBroadcast | aprs_file_copy/file_sender.cc:78-101 | The packets one after another, stopping at the first failure |
| FileSending.FileSender.CutFile | aprs_file_copy/file_sender.cc:53-66 | The chunk list, numbered by 32-bit increments from 1; chunk size 0 keeps the file whole |
| FileSending.FileSender.GetNextTransferId | aprs_file_copy/file_sender.cc:103-110 | The counter and its result are those of the id generator |
| FileSending.FileSender.constructor | aprs_file_copy/file_sender.cc:30-32 | A new sender's transfer counter is 0 |
| Kiss.EncodeKISSFrame | net/tnc_aprs_interface.cc:197-212 | The encoding loop, for either kind of `char` |
| Kiss.DecodeKISSFrame | net/tnc_aprs_interface.cc:214-277 | The decoding loop with its four variables returns the frame, and leaves the bytes, that the decoder function says |
| Kiss.DecodesFromExactly | net/tnc_aprs_interface.cc:235-271 | From any decoder state, the next encoded frame comes back at its closing delimiter if and only if nothing is collected and no escape is pending |
| Kiss.SurvivesExactly | net/tnc_aprs_interface.cc:200-208 | A frame survives encoding and decoding if and only if `char` is unsigned or the frame has neither 0xc0 nor 0xdb |
| Kiss.SignedCharCuts | net/tnc_aprs_interface.cc:200-208 | With a signed `char`, a frame holding 0xc0 is cut there and its rest left for the next call |
| Kiss.ReadAfterAnythingExactly | net/tnc_aprs_interface.cc:214-277 | After any bytes, delimiters and frames among them, from any decoder state: the calls return what these bytes make them return, and then the next frame up to its own end if and only if the bytes leave nothing collected and no escape pending |
| Kiss.SharedDelimiter | net/tnc_aprs_interface.cc:235-248 | Of two frames that share one delimiter the second is lost |
| Kiss.ReadAfterNoiseExactly | net/tnc_aprs_interface.cc:235-271 | From any decoder state, the frame after delimiter-free noise comes back if and only if the noise leaves nothing collected and no escape pending |
| Kiss.NoiseAfterEmptyExactly | net/tnc_aprs_interface.cc:235-271 | After an empty frame: if and only if the noise is at most one byte, or its bytes from the second on hold an escape with a meaningless second byte, or end in a doubled escape |
| Kiss.PlainNoise | net/tnc_aprs_interface.cc:235-271 | Noise without an escape byte does no harm after an empty frame if and only if it is at most one byte |
| Kiss.StreamDecodes | net/tnc_aprs_interface.cc:214-277 | Successive calls return exactly the nonempty frames of a stream, in order, past empty frames, bare delimiters and every noise that leaves the decoder clean |
| Kiss.TidyIsReceivable | net/tnc_aprs_interface.cc:214-277 | Noise before the first frame and after nonempty frames always does, whatever it is |
| Kiss.NoiseAfterEmptyFrame | net/tnc_aprs_interface.cc:235-248 | Two bytes of noise after an empty frame, and the second is returned as a frame |
| Kiss.Transparent | net/tnc_aprs_interface.cc:200-208 | The encoded body has no delimiter; the length is frame + 3 + number of special bytes |
| Kiss.PlainFrames | net/tnc_aprs_interface.cc:200-208 | A frame without special bytes goes out verbatim |
| Ax25.EncodeAX25Callsign | net/tnc_aprs_interface.cc:146-166 | The encoder, exiting exactly on an SSID outside 0..15 or more than six characters |
| Ax25.DecodeAX25Callsign | net/tnc_aprs_interface.cc:168-195 | The decoder with its name loop |
| Ax25.DecodeDigipeaters | net/tnc_aprs_interface.cc:114-126 | The digipeater loop, with its rejection of an eighth that is last |
| Ax25.AddressHeard | net/tnc_aprs_interface.cc:168-195 | What any encodable callsign decodes to: seven-bit characters up to the first space, SSID without bit 2, and the right "last" bit |
| Ax25.HeardExactly | net/tnc_aprs_interface.cc:182-193 | A callsign comes through unchanged if and only if it is seven-bit, has no space and its SSID lacks bit 2 |
| Ax25.ListShape | net/tnc_aprs_interface.cc:67-74 | n addresses take 7n bytes and only the final one has the "last" bit |
| Ax25.ListsDiffer | net/tnc_aprs_interface.cc:67-74 | On callsigns that come through unchanged, the address list encoding is injective |
| Ax25.BodyHeard | net/tnc_aprs_interface.cc:102-143 | What any sendable frame parses to; with eight digipeaters it is rejected |
| Ax25.RoundTripExactly | net/tnc_aprs_interface.cc:102-143 | A frame parses to what was sent if and only if it has at most seven digipeaters and all callsigns come through unchanged |
| Ax25.ParsedLength | net/tnc_aprs_interface.cc:128-142 | An accepted frame is as long as its parts announce |
| Link.LinkExactly | net/tnc_aprs_interface.cc:59-144 | Send then receive gives back source, destination, digipeaters and payload, and reads not one byte more, if and only if at most seven digipeaters, all callsigns come through, and `char` is unsigned or the frame is plain |
| Link.BodyPlain | net/tnc_aprs_interface.cc:156-165 | A frame needs no escape if and only if its payload has no special byte and no callsign has a character that shifts to 0xc0 |
| Link.Losses | net/tnc_aprs_interface.cc:122-193 | SSID 4 is heard as 0, and eight digipeaters are rejected |

## Left out

- Sockets, time-outs and connection set-up: `DecodeKISSFrame` is given the bytes that arrive and returns nothing when they run out, where the program would wait; `Send` appends to a list of transmissions, and may fail at any point.
- Protobuf and base64: foreign libraries, represented by functions that round-trip. `SerializeToString` does not fail.
- `InternetAPRSInterface`, the callsign parser and printer, the command line, logging (with the loop that logs a missing chunk) and string formatting: no protocol content.
- The source callsign that `ReceiveBroadcastPacket` leaves behind when it returns no packet; `FileReceiver` uses none.
- Directed mode and acknowledgements: the program does not implement them.
- The file system: a write replaces a file's contents; opening, permissions and short writes are not modelled. `BaseName` follows boost on paths that name a file, not on those that end in a slash, which cannot be read.
- The interval is a whole number of microseconds; the program multiplies a `float` and adds the product in floating point. `usleep` is assumed to sleep in full; a signal could cut it short.
- `last_time_us`, `last_fragment_time_us`: stored and never read.
- Retransmission round of a stored fragment: the receiver keeps it and never reads it, so the abstract cells leave it out.
- Memory: trackers, completed ids and partial packets are never dropped, in the program and in the model.
- Station.AprsStation.SendBroadcastPacket: requires a fragment size of at least 1 and a packet shorter than 2^32 bytes, because otherwise the program's cutting loop does not end; `FileSending.FileSender.Send` passes that on.
- Station.AprsStation.ReceiveBroadcastPacket: after an exit nothing is said of the receiver's state, since the process is gone.
- PacketReceiver.PacketChunkReceiver.PushPacketChunk: after the exit on a payload that does not parse nothing is said of the vectors beyond their consistency.
- FullStack.FileCrossesTheAir: one sender's file on an order-keeping channel; for arbitrary order and many senders `FullStack.FinishesExactly` gives the exact condition.
- FullStack.SendAndReceive: the receiver reads after the sender has finished; that they run at the same time is not modelled, and nothing passes from one to the other but the bytes.
- Bodies of long methods are divided: the loops or loop bodies of `PushPacketChunk`, `HandleTransferChunk`, `SendBroadcastPacket`, `ReceiveBroadcastPacket`, the two `Send`s and `DecodeAX25Callsign` are methods of their own.
