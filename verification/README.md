# Verification of the chat system

A Dafny model of the chat system's native core (the event-loop server, its command queue, the framing codec
and stream parser, and the client's send loop) and of the application state above it (file transfers and the
nickname registry), with proofs of what the system promises over every input, every way of cutting the byte
streams, and every interleaving of its threads.

`dafny verify dfyconfig.toml` checks everything.

## What is modelled

| file | part of the system |
|---|---|
| `Bytes.dfy`, `Strings.dfy`, `Framing.dfy` | the wire format, and the meaning of a byte stream as a recursive decoder |
| `StreamParser.dfy` | the incremental parser: a class with a header buffer, a payload buffer and a loop |
| `Transport.dfy` | framing into a 4096-byte buffer, short-write send loops, the receive loop |
| `CommandQueue.dfy` | the linked list with a dummy head |
| `SlotTable.dfy`, `Commands.dfy` | poll entries, client slots and the descriptor map as one value; whom a command reaches |
| `ServerContext.dfy`, `ServerIteration.dfy` | the same tables in memory, the operations of the loop on them, and one iteration of the loop |
| `EventLoop.dfy`, `EventLoopSafety.dfy`, `EventLoopTheorems.dfy` | the loop thread and any number of other threads as a step relation; its invariant; its theorems |
| `EventLoopLaws.dfy` | what its events amount to: pushes, signals, counts, complete iterations |
| `EventLoopRuns.dfy`, `EventLoopCoverage.dfy` | phases of an iteration as runs; which pushes of other threads are safe |
| `LoopRefinement.dfy` | an iteration in memory is a run of that relation |
| `Lifecycle.dfy` | start and shutdown by any number of threads |
| `FileTransfer.dfy`, `FileLedger.dfy` | transfer sessions over a disk, and the books a run keeps |
| `FileSending.dfy`, `FileArrival.dfy` | the chunking sender, the handlers, and a file's way from end to end |
| `UserRegistry.dfy`, `Presence.dfy` | nicknames, and the join and leave broadcasts |
| `Departure.dfy` | the end of a connection, in the tables and in the room |

Imperative code is a class or a method with loops, proved against a function on values; what the system
promises is proved about that function. The event loop with other threads in between is a step relation:
the queue operations are atomic because they hold the queue's mutex, and a push and the pipe write after it
are two steps. Every accepted connection gets a generation number there, which the code does not have, to
tell a descriptor that is used again from its former holder. `poll` is taken as in the System Interfaces
volume of POSIX.1-2017: an entry with a negative descriptor reports nothing, a pipe with bytes reports
POLLIN.

## Where the code falls short of the promise

Each is stated exactly, with a run or an input that shows it.

- A command pushed by a thread other than the loop's can reach a later client that was given the same
  descriptor (`OtherThreadsCanMissTheirClient`); one pushed by a callback on the loop thread never does
  (`FdReuseSafety`), and one pushed by another thread can go wrong exactly when the loop can still give the
  descriptor that the command names to a new client before it drains the queue (`NamedIsExact`, `AdmitFirst`).
- `server_shutdown` can return while the server is running, or wait for a loop that nobody has told to stop,
  when another thread starts the server again meanwhile; without a start in between it returns in the stopped
  state (`ShutdownReturnsStopped`, `WaitsForOwnLoop`), and nothing less than that helps: whatever a caller has
  done so far, it can still come to return so, and unless it has read the thread, to wait so
  (`AnyShutdownCanReturnRunning`, `AnyShutdownCanWaitForALaterLoop`).
- After a poll error, a shutdown's signal can stay in the pipe and end the next loop
  (`StaleSignalStopsALaterLoop`); it cannot while no poll and no read fails (`SmoothRunsStartClean`), and
  `CleanStart` says exactly when it can happen.
- The Python client's default chunk size of 4096 exceeds the 4091 bytes that fit a frame, so that only files
  of at most 4091 bytes arrive (`DefaultChunkSizeIsTooLarge`); `FileArrives` says which files arrive for
  every chunk size.
- The C client's `client_send_file` ends with an empty message, which asks for no end of transfer: no file
  sent that way is ever accepted (`NativeFilesNeverArrive`).
- Two transfers that start in the same millisecond under the same name get one path (`PathsCollide`), and
  append to one file (`SharedPathMixesFiles`, `SameMillisecondSameName`). A start is safe exactly when no file
  and no session has its path (`StartIsSafe`, `DiskAccountingIsExact`); then transfers do not influence each
  other (`Isolation`).
- A connection that is dropped after a parse failure, and only such a one, is not reported as disconnected, so
  that its nickname stays taken (`Departures.HandleClient`, `UnreportedClientKeepsNickname`).

## Model

| member | source | states |
|---|---|---|
| `Bytes.NetworkRoundTrip` | C_chat_lib/common/src/protocol.c:41-44 | a length below 2^32 written in network order reads back as itself |
| `Bytes.NetworkRoundTripBack` | C_chat_lib/common/src/protocol.c:100-102 | four bytes read as a length and written again are the same bytes |
| `Bytes.ToInt32` | C_chat_lib/common/src/protocol.c:50 | the frame size is returned as a 32-bit signed integer, congruent to it |
| `Bytes.CopyBytes` | C_chat_lib/common/src/protocol.c:89-94 | the smaller of what is there and what is needed is copied; the rest of the buffer keeps its bytes |
| `Strings.TrimIsExact` | java_chat_server/src/main/java/project/java_chat_server/service/handlers/LoginRequestHandler.java:28 | trimming removes characters up to the blank at both ends, and what is left is empty or begins and ends with a visible one |
| `Framing.WireFormat` | C_chat_lib/common/src/protocol.c:36-50 | an encoded message is its type byte, its length in four bytes with the most significant first, and its payload |
| `Framing.LengthFormat` | C_chat_lib/common/src/protocol.c:100-102 | and a header's length is read the same way |
| `Framing.DecodeConserves` | C_chat_lib/common/src/protocol.c:76-137 | conservation: the decoded messages encoded again, followed by what is held, are the stream; what is held is strictly incomplete; after a refused allocation it is exactly the refused header |
| `Framing.DecodeIsTheOnlySplit` | C_chat_lib/common/src/protocol.c:76-137 | a stream decodes to some messages and a remainder if and only if it is their encodings followed by an incomplete remainder |
| `Framing.DecodeEncodings` | C_chat_lib/common/src/protocol.c:76-137 | whole encodings in front of any stream decode to their messages and leave the rest as it was |
| `Framing.DecodeContinues` | C_chat_lib/common/src/protocol.c:76-137 | a second piece continues from what the first left, and a failure is final |
| `Framing.FragmentationIndependence` | C_chat_lib/common/src/protocol.c:76-137 | for every way of cutting a stream, messages, held bytes and verdict are those of reading it whole |
| `Framing.FailureOffset` | C_chat_lib/common/src/protocol.c:104-118 | however the stream is cut, the first failure comes with the last byte of the refused header, not before |
| `Framing.RoundTrip` | C_chat_lib/common/src/protocol.c:27-137 | encodings cut anywhere decode to the messages and leave nothing behind |
| `Framing.RefusalIsExact` | C_chat_lib/common/src/protocol.c:104-118 | the first message of a stream is refused if and only if it has a payload that cannot be allocated; then its header alone is held |
| `StreamParsing.StreamParser.constructor` | C_chat_lib/common/src/protocol.c:53-61 | a new parser holds nothing |
| `StreamParsing.StreamParser.Reset` | C_chat_lib/common/src/protocol.c:13-25 | state, counters and payload buffer are cleared; the pending type is kept |
| `StreamParsing.StreamParser.FinishHeader` | C_chat_lib/common/src/protocol.c:96-119 | a complete header delivers an empty message, gets a payload buffer, or leaves the parser stuck with it, as decoding says |
| `StreamParsing.StreamParser.TakeHeader` | C_chat_lib/common/src/protocol.c:87-119 | one turn in the header state delivers what decoding the same bytes delivers, and uses no byte only after a failed allocation |
| `StreamParsing.StreamParser.TakePayload` | C_chat_lib/common/src/protocol.c:120-134 | one turn in the payload state delivers what decoding the same bytes delivers |
| `StreamParsing.StreamParser.Turn` | C_chat_lib/common/src/protocol.c:85-135 | either turn keeps the parser well formed, leaves the input alone, and uses a byte, fails, or moves on to the payload |
| `StreamParsing.StreamParser.ParseStream` | C_chat_lib/common/src/protocol.c:76-137 | from every state, also after a failed allocation, a call terminates and delivers what decoding the held and the new bytes gives, with the held bytes and the return value to match; a missing buffer is refused |
| `StreamParsing.HeldIsState` | C_chat_lib/common/src/protocol.c:13-25 | two parsers that no refused allocation has stopped hold the same bytes if and only if they are in the same state, with the same counters and contents |
| `StreamParsing.WholeFirst` | C_chat_lib/common/src/protocol.c:129-133 | a header with its whole payload is one message |
| `Transport.FrameMessage` | C_chat_lib/common/src/protocol.c:27-51 | the buffer gets the header with the low byte of the type and the low 32 bits of the length, then the payload, and nothing else changes; a missing or small buffer is refused untouched; a missing payload of a length that wraps around `size_t` yields a bare header |
| `Transport.FrameSizeMeans` | C_chat_lib/common/src/protocol.c:34-39 | the frame size is the sum of header and payload, less 2^64 exactly when it reaches that |
| `Transport.Network.Send` | C_chat_lib/server_lib/src/chat_server.c:668-680 | a send takes any positive number of the offered bytes or fails |
| `Transport.Network.SendAll` | C_chat_lib/client_lib/src/chat_client.c:210-228 | whatever the short writes are, a prefix of the frame is written, and all of it on a healthy connection |
| `Transport.Network.SendPayload` | C_chat_lib/client_lib/src/chat_client.c:194-234 | a payload of at most 4091 bytes is written as one frame; a longer or missing one writes nothing |
| `Transport.SendEach` | C_chat_lib/client_lib/src/chat_client.c:194-234 | a list of payloads becomes the encodings of those that fit, in order, on a healthy connection, and a part of each where sends fail; a closed descriptor gets nothing |
| `Transport.LimitIsExact` | C_chat_lib/client_lib/src/chat_client.c:201-208 | a payload is sent if and only if it has at most 4091 bytes, and then with the low byte of its type |
| `Transport.ReceiveOne` | C_chat_lib/server_lib/src/chat_server.c:520-526 | a piece received in any reachable state is decoded after the held bytes |
| `Transport.Receive` | C_chat_lib/client_lib/src/chat_client.c:286-304 | any pieces received one by one deliver what decoding their concatenation gives, up to the first failure |
| `Transport.NothingHeld` | C_chat_lib/common/src/protocol.c:13-25 | a parser holds nothing if and only if it is in its initial state |
| `Transport.WireRoundTrip` | C_chat_lib/common/src/protocol.c:27-137 | payloads framed, sent and cut anywhere are delivered in order, those over 4091 bytes left out, and nothing is held |
| `CommandQueues.CommandQueue.constructor` | C_chat_lib/common/src/command_queue.c:23-56 | a new queue is empty |
| `CommandQueues.CommandQueue.Push` | C_chat_lib/common/src/command_queue.c:83-106 | the datum is appended behind all others, or nothing changes when there is no node; the list stays a simple path |
| `CommandQueues.CommandQueue.Pop` | C_chat_lib/common/src/command_queue.c:108-136 | the oldest datum is taken and its node dropped; an empty queue gives nothing and keeps its state |
| `CommandQueues.CommandQueue.IsEmpty` | C_chat_lib/common/src/command_queue.c:138-148 | the size is one if and only if the queue is empty |
| `CommandQueues.CommandQueue.Destroy` | C_chat_lib/common/src/command_queue.c:58-81 | every node is freed once, and every datum still there is destroyed once, oldest first |
| `SlotTables.EmptyAgrees` | C_chat_lib/server_lib/src/chat_server.c:143-180 | the tables of a new server agree and hold no connection |
| `SlotTables.FirstFree` | C_chat_lib/server_lib/src/chat_server.c:462-471 | the scan finds the first free entry, and fails only when none is free |
| `SlotTables.Pigeonhole` | C_chat_lib/server_lib/src/chat_server.c:454-477 | fewer connections than entries if and only if an entry is free |
| `SlotTables.LookupIsExact` | C_chat_lib/server_lib/src/chat_server.c:630-638 | the lookup recognises exactly the connected descriptors, and no two slots share one |
| `SlotTables.AgreementMeans` | C_chat_lib/server_lib/src/chat_server.c:434-576 | what agreement is, in plain terms: poll entry, slot, parser and map entry name each other, descriptors are below 4096, and the count is the number of connections |
| `SlotTables.AddIsExact` | C_chat_lib/server_lib/src/chat_server.c:441-497 | each outcome of an accept if and only if its condition; the first free slot is taken |
| `SlotTables.FreeSlotsAreExact` | C_chat_lib/server_lib/src/chat_server.c:479-573 | a free slot holds descriptor 0 in a new server and after a removal, and the closed descriptor after an accept that got no parser |
| `SlotTables.AddKeepsAgreement` | C_chat_lib/server_lib/src/chat_server.c:434-499 | accepting keeps the tables in agreement and adds just the one connection; the scan never fails after the capacity check, which refuses exactly when no entry is free |
| `SlotTables.RemoveKeepsAgreement` | C_chat_lib/server_lib/src/chat_server.c:549-576 | removing keeps the tables in agreement and drops just the one connection |
| `Commands.BroadcastFromIsExact` | C_chat_lib/server_lib/src/chat_server.c:605-617 | the broadcast loop writes once to every connected descriptor but the excluded one |
| `Commands.RecipientsAreExact` | C_chat_lib/server_lib/src/chat_server.c:589-619 | a command is written once to every connected descriptor that it addresses and to no other |
| `Commands.DeliveryMeans` | C_chat_lib/server_lib/src/chat_server.c:583-689 | what delivery is, in plain terms: a healthy socket grows by the frame if and only if it is a client's, the target or not the excluded one, and the payload has 1 to 4091 bytes; nothing is taken back, and nothing goes where no client is |
| `Commands.DeliveredSnoc` | C_chat_lib/server_lib/src/chat_server.c:583-625 | exact delivery composes: one more command adds its own frames behind the earlier ones |
| `ServerContexts.ServerContext.constructor` | C_chat_lib/server_lib/src/chat_server.c:143-192 | the arrays of a new server represent the empty tables, beside an empty queue |
| `ServerContexts.ServerContext.FindFreePoller` | C_chat_lib/server_lib/src/chat_server.c:462-471 | the loop over the poll entries is the first-fit scan |
| `ServerContexts.ServerContext.FillSlot` | C_chat_lib/server_lib/src/chat_server.c:479-497 | the slot gets descriptor and fresh parser, or its entry is freed again; other slots stay |
| `ServerContexts.ServerContext.AdmitClient` | C_chat_lib/server_lib/src/chat_server.c:462-497 | after the capacity check the arrays change as the tables do, the missing-slot branch is never taken, and a client without a parser is closed |
| `ServerContexts.ServerContext.AddClient` | C_chat_lib/server_lib/src/chat_server.c:434-499 | the arrays change as the tables do, a client that is not admitted is closed, and the missing-slot branch is never taken |
| `ServerContexts.ServerContext.RemoveClient` | C_chat_lib/server_lib/src/chat_server.c:549-576 | the arrays change as the tables do, and exactly that socket is closed |
| `ServerContexts.ServerContext.IsValidClient` | C_chat_lib/server_lib/src/chat_server.c:630-638 | the lookup by bounds and map entry |
| `ServerContexts.ServerContext.SendFrame` | C_chat_lib/server_lib/src/chat_server.c:647-689 | one frame on that socket, whole if it is healthy; nothing for a missing payload, a long one or a negative descriptor |
| `ServerContexts.ServerContext.BroadcastToEntry` | C_chat_lib/server_lib/src/chat_server.c:607-616 | one entry of the broadcast loop: its frame once, or nothing |
| `ServerContexts.ServerContext.BroadcastFrame` | C_chat_lib/server_lib/src/chat_server.c:601-619 | the frame once to every connected client except the excluded one, all other sockets as before |
| `ServerContexts.ServerContext.ProcessCommand` | C_chat_lib/server_lib/src/chat_server.c:589-622 | one command delivers exactly its frames |
| `ServerContexts.ServerContext.ProcessNext` | C_chat_lib/server_lib/src/chat_server.c:587-623 | the oldest command is taken and delivered |
| `ServerContexts.ServerContext.ProcessCommands` | C_chat_lib/server_lib/src/chat_server.c:583-625 | the queue ends empty, every command is destroyed once in queue order, and every healthy connection got exactly the frames addressed to it, in that order |
| `ServerContexts.ServerContext.ReceiveFrom` | C_chat_lib/server_lib/src/chat_server.c:511-526 | what arrived is decoded after the held bytes, and the client is dropped exactly if that fails |
| `ServerContexts.ServerContext.HandleClientData` | C_chat_lib/server_lib/src/chat_server.c:506-543 | what arrived is decoded after the held bytes; the connection is dropped exactly on a parse failure, a close or an error, with the callback only in the last two cases; no other slot is touched and no other socket closed |
| `ServerIterations.CreateServer` | C_chat_lib/server_lib/src/chat_server.c:89-211 | no server without capacity or when a resource cannot be had; a new server has empty tables, no connection and an empty queue |
| `ServerIterations.AcceptClient` | C_chat_lib/server_lib/src/chat_server.c:411-414 | the new connection holds nothing and was nobody's slot; all other connections are as before |
| `ServerIterations.DrainCommands` | C_chat_lib/server_lib/src/chat_server.c:401-409 | draining delivers exactly and leaves connections and held bytes as they are |
| `ServerIterations.ServeClient` | C_chat_lib/server_lib/src/chat_server.c:418-421 | serving one entry changes that connection only, and runs the disconnect callback exactly after a close or an error |
| `ServerIterations.ServedMeans` | C_chat_lib/server_lib/src/chat_server.c:506-543 | a connection ends if and only if it was closed, failed or sent what does not parse, and keeps its descriptor otherwise |
| `ServerIterations.ServeClients` | C_chat_lib/server_lib/src/chat_server.c:416-422 | every connection ends up as its own event leaves it and delivers its own messages, whatever the others sent; the tables lose exactly the dropped slots, and exactly their sockets are closed |
| `ServerIterations.DrainAndAccept` | C_chat_lib/server_lib/src/chat_server.c:401-414 | the first half of an iteration, with the sockets' exact contents |
| `ServerIterations.RunIteration` | C_chat_lib/server_lib/src/chat_server.c:377-423 | a whole iteration keeps the server in order: drained commands go to the connections from before, a new client joins without a byte held, every connection is served by its own event alone |
| `EventLoopSafety.InitInv` | C_chat_lib/server_lib/src/chat_server.c:89-206 | a new server satisfies the invariant |
| `EventLoopSafety.IndexedStep` | C_chat_lib/server_lib/src/chat_server.c:434-576 | every step keeps the tables in agreement with the live connections |
| `EventLoopSafety.GuardedStep` | C_chat_lib/server_lib/src/chat_server.c:416-422 | every step keeps it true that only occupied slots are served, and that a pop finds a command |
| `EventLoopSafety.AnnouncedStep` | C_chat_lib/server_lib/src/chat_server.c:707-715 | every step keeps every queued command announced outside the drain |
| `EventLoopSafety.InOrderStep` | C_chat_lib/server_lib/src/chat_server.c:583-625 | every step keeps each stored command in exactly one place, in push order |
| `EventLoopSafety.FreshStep` | C_chat_lib/server_lib/src/chat_server.c:401-414 | every step keeps it true that no client is accepted while a covered command waits |
| `EventLoopSafety.RecordedStep` | C_chat_lib/server_lib/src/chat_server.c:583-625 | every step keeps each connection's messages equal to what the log says was sent to it |
| `EventLoopSafety.CountedStep` | C_chat_lib/server_lib/src/chat_server.c:495-574 | every step keeps connects = disconnects + parse failures + current count |
| `EventLoopSafety.WriteIsExact` | C_chat_lib/server_lib/src/chat_server.c:605-617 | a write to distinct descriptors adds the message once to each of their connections whose send did not fail, and to no other |
| `EventLoopSafety.ReachesMeans` | C_chat_lib/server_lib/src/chat_server.c:583-689 | which clients a processed command reached, in plain terms |
| `EventLoopSafety.SentMeans` | C_chat_lib/server_lib/src/chat_server.c:655-683 | one more processed command adds its message, with the low byte of the type, to exactly those |
| `EventLoopSafety.StepInv` | C_chat_lib/server_lib/src/chat_server.c:367-428 | every step of the loop or of another thread keeps the invariant |
| `EventLoopSafety.RunInv` | C_chat_lib/server_lib/src/chat_server.c:367-428 | so does every run |
| `EventLoopTheorems.NoLostWakeup` | C_chat_lib/server_lib/src/chat_server.c:401-409 | at poll the queue is no longer than the pipe's bytes and the threads about to write; so with commands waiting and no thread in between, any poll result leads to the drain |
| `EventLoopTheorems.FdReuseSafety` | C_chat_lib/server_lib/src/chat_server.c:377-423 | a command whose push was covered, as in every loop callback, is processed among connections that all held their descriptors at the push; for any command, a connection is one of those exactly when it is older than the push |
| `EventLoopTheorems.DrainSafety` | C_chat_lib/server_lib/src/chat_server.c:585-624 | a pop never comes back empty; pushed = destroyed, in hand, waiting, in order; after the queue is destroyed every stored command was destroyed once |
| `EventLoopTheorems.TablesAgree` | C_chat_lib/server_lib/src/chat_server.c:434-576 | in every reachable state the tables agree, the count is within the capacity and accounts for every connection, and the next scan for a slot cannot fail |
| `EventLoopTheorems.PositionsAreExact` | C_chat_lib/server_lib/src/chat_server.c:583-625 | a connection's messages are those of an increasing sequence of positions, which are exactly the processed commands that reach it |
| `EventLoopTheorems.DeliveryIsExact` | C_chat_lib/server_lib/src/chat_server.c:583-689 | over every run, what was written to a connection is an in-order selection of the pushed commands: exactly those that address it and whose send did not fail |
| `EventLoopTheorems.FailsMeans` | C_chat_lib/server_lib/src/chat_server.c:667-680 | when a send counts as failed: the payload has 1 to 4091 bytes, the command is meant for the connection, and its socket is among those that failed |
| `EventLoopTheorems.StreamMeans` | C_chat_lib/server_lib/src/chat_server.c:667-680 | what a connection can carry: the frames of the commands that reached it, any part of one whose send failed, and nothing else |
| `EventLoopTheorems.ClientDecodesDeliveries` | C_chat_lib/client_lib/src/chat_client.c:286-304 | the client behind a connection, however its stream is cut, decodes the messages written to it up to the first failed send, and exactly all of them if none failed |
| `EventLoopTheorems.OtherThreadsCanMissTheirClient` | C_chat_lib/server_lib/src/chat_server.c:691-722 | for every capacity and every descriptor, a run in which another thread's send reaches a later client at the same descriptor |
| `EventLoopLaws.InitIsEmpty` | C_chat_lib/server_lib/src/chat_server.c:143-192 | a new server has no connection, command or byte in it |
| `EventLoopLaws.PushesAreStored` | C_chat_lib/server_lib/src/chat_server.c:691-755 | in every run the commands in the queue's history are exactly those that callbacks and other threads pushed and the queue had memory for, in order |
| `EventLoopLaws.SignalsAreConserved` | C_chat_lib/server_lib/src/chat_server.c:401-409 | in every run each push is followed by one byte, each byte written is in the pipe or was read, and no read takes more than 8 |
| `EventLoopLaws.CountsAreExact` | C_chat_lib/server_lib/src/chat_server.c:495-574 | in every run the counters count the admitted clients, the disconnect callbacks and the parse failures |
| `EventLoopLaws.PollIsExact` | C_chat_lib/server_lib/src/chat_server.c:379-418 | poll reports if and only if there is something to report: a byte in the pipe, a waiting client, an entry in use |
| `EventLoopLaws.ResultsAreExact` | C_chat_lib/server_lib/src/chat_server.c:401-543 | what a read, a send, an accept, a client and a callback can come back with, and when |
| `EventLoopLaws.OthersNeverBlocked` | C_chat_lib/server_lib/src/chat_server.c:691-755 | another thread can push whenever the server exists, and write whenever it has pushed |
| `EventLoopLaws.LoopNeverStuck` | C_chat_lib/server_lib/src/chat_server.c:377-427 | in every reachable state the loop has a step to take |
| `EventLoopLaws.ShutdownEndsLoop` | C_chat_lib/server_lib/src/chat_server.c:381-399 | after a reported shutdown or a failed poll the loop serves nobody and takes no step but to leave |
| `EventLoopLaws.IterationIsComplete` | C_chat_lib/server_lib/src/chat_server.c:377-423 | from one poll to the next the loop serves exactly the reported slots, each once and in order, accepts if and only if a client was waiting, and after a byte in the pipe processes every command pushed before |
| `EventLoopCoverage.CoveredNeverMisses` | C_chat_lib/server_lib/src/chat_server.c:377-423 | in no run after a push that is covered for a descriptor is the command processed while a later client holds it |
| `EventLoopCoverage.AdmitFirst` | C_chat_lib/server_lib/src/chat_server.c:401-422 | from every state in which a push is not covered for a descriptor, the loop can give it to a new client before it drains the queue |
| `EventLoopCoverage.DescriptorIsExact` | C_chat_lib/server_lib/src/chat_server.c:377-423 | after another thread's push, whoever holds a given descriptor at the processing held it at the push, in every run that follows, if and only if the push is covered for it: the descriptor is out of range, or the loop is on its way to the queue, draining it or about to write to the pipe, or the pipe holds a byte and the descriptor cannot be given away right now |
| `EventLoopCoverage.NamedIsExact` | C_chat_lib/server_lib/src/chat_server.c:605-616 | the same for the descriptor that the command names, the target of a send or the one that a broadcast leaves out |
| `EventLoopCoverage.CoverageIsExact` | C_chat_lib/server_lib/src/chat_server.c:377-423 | no client at all that connected after the push is present at the processing, in any run that follows, if and only if the push is covered for every descriptor, which can be read off the state |
| `EventLoopRuns.DrainRun` | C_chat_lib/server_lib/src/chat_server.c:583-625 | a drain of the queue is a run that leaves every healthy connection with its messages appended in order |
| `EventLoopRuns.IterationRun` | C_chat_lib/server_lib/src/chat_server.c:377-423 | draining, accepting and serving in this order is a run from poll to poll with the tables, queue and messages that follow |
| `LoopRefinement.StartRepresents` | C_chat_lib/server_lib/src/chat_server.c:337-339 | a new server whose loop has started represents the relation's state after its start |
| `LoopRefinement.Enqueue` | C_chat_lib/server_lib/src/chat_server.c:691-722 | another thread's push and pipe write are a run, and the server represents the state after it |
| `LoopRefinement.Iterate` | C_chat_lib/server_lib/src/chat_server.c:377-423 | refinement: an iteration of the server in memory is a run of the step relation, from the state it represents to one it represents again, wires included |
| `LoopRefinement.RepresentsMeans` | C_chat_lib/server_lib/src/chat_server.c:377-423 | what it is to represent a state, in plain terms: tables, queue, and the bytes on every healthy connection |
| `LoopRefinement.KindMeans` | C_chat_lib/server_lib/src/chat_server.c:511-542 | an event counts as a departure if and only if the disconnect callback runs for it |
| `Lifecycles.StepInv` | C_chat_lib/server_lib/src/chat_server.c:212-354 | every step of a starter, a stopper or a loop thread keeps the invariant |
| `Lifecycles.RunInv` | C_chat_lib/server_lib/src/chat_server.c:212-354 | so does every run |
| `Lifecycles.EnabledMeans` | C_chat_lib/server_lib/src/chat_server.c:212-428 | when each step can happen, in both directions |
| `Lifecycles.OneThreadInLoop` | C_chat_lib/server_lib/src/chat_server.c:320-354 | exactly one thread is in the loop if and only if the state is not stopped, and none if it is |
| `Lifecycles.ShutdownReturnsStopped` | C_chat_lib/server_lib/src/chat_server.c:212-246 | the caller that began a shutdown returns after a loop of its own start or a later one is over; the server is then stopped if and only if nobody has started it again or that loop is over too |
| `Lifecycles.WaitsForOwnLoop` | C_chat_lib/server_lib/src/chat_server.c:242-245 | the caller reads its own start's thread to wait for if and only if nobody has started the server since |
| `Lifecycles.AnyShutdownCanReturnRunning` | C_chat_lib/server_lib/src/chat_server.c:212-246 | from every reachable state a caller inside shutdown can still come to return in the running state, although no poll or read fails |
| `Lifecycles.AnyShutdownCanWaitForALaterLoop` | C_chat_lib/server_lib/src/chat_server.c:242-245 | from every reachable state a caller that has not read the thread yet can come to wait for the loop of a later start |
| `Lifecycles.NoLostShutdown` | C_chat_lib/server_lib/src/chat_server.c:391-399 | during a shutdown that has been signalled, the loop has left or its poll reports the shutdown pipe |
| `Lifecycles.SignalsAreConserved` | C_chat_lib/server_lib/src/chat_server.c:229-235 | in every run each won shutdown's signal is with its caller, in the pipe or read, once |
| `Lifecycles.CleanStart` | C_chat_lib/server_lib/src/chat_server.c:337-399 | after a start the new loop can come to leave on a signal although no shutdown was won since, if and only if fewer signals were read than shutdowns were won |
| `Lifecycles.SmoothRunsStartClean` | C_chat_lib/server_lib/src/chat_server.c:391-399 | without a failing poll or read, a stopped or running server has no signal left |
| `Lifecycles.StaleSignalStopsALaterLoop` | C_chat_lib/server_lib/src/chat_server.c:381-399 | a run with a poll error after which the next loop can leave although nobody asks it to |
| `Lifecycles.ShutdownCanReturnRunning` | C_chat_lib/server_lib/src/chat_server.c:242-245 | a run with a start in between in which shutdown returns in the running state |
| `Lifecycles.ShutdownCanWaitForAnotherLoop` | C_chat_lib/server_lib/src/chat_server.c:242-245 | a run in which shutdown waits for a loop that nobody has told to stop |
| `FileTransfers.FileTransferSession.constructor` | java_chat_server/src/main/java/project/java_chat_server/domain/FileTransferSession.java:6-12 | a new session has received nothing |
| `FileTransfers.FileTransferSession.AddReceivedBytes` | java_chat_server/src/main/java/project/java_chat_server/domain/FileTransferSession.java:14-16 | the count grows by the length and nothing else changes |
| `FileTransfers.FileTransferService.Start` | java_chat_server/src/main/java/project/java_chat_server/service/FileTransferService.java:39-49 | a session object at the path made of the millisecond and the name, for a client without one; refused otherwise |
| `FileTransfers.PathsCollide` | java_chat_server/src/main/java/project/java_chat_server/service/FileTransferService.java:44 | two transfers get one path if and only if they start in the same millisecond under the same name |
| `FileTransfers.DigitsAreDecimal` | java_chat_server/src/main/java/project/java_chat_server/service/FileTransferService.java:44 | the number in a path is the millisecond in decimal, without leading zeros |
| `FileTransfers.OutcomesAreExact` | java_chat_server/src/main/java/project/java_chat_server/service/FileTransferService.java:39-110 | each answer of each operation if and only if its condition, and what becomes of session and file |
| `FileTransfers.FileTransferService.ProcessChunk` | java_chat_server/src/main/java/project/java_chat_server/service/FileTransferService.java:51-60 | the chunk is appended to the session's file and counted; the other sessions stay as they are |
| `FileTransfers.FileTransferService.End` | java_chat_server/src/main/java/project/java_chat_server/service/FileTransferService.java:62-93 | each of the five outcomes with what becomes of session and file |
| `FileTransfers.FileTransferService.Cancel` | java_chat_server/src/main/java/project/java_chat_server/service/FileTransferService.java:99-110 | session and file are dropped |
| `FileLedgers.StepBooked` | java_chat_server/src/main/java/project/java_chat_server/service/FileTransferService.java:39-110 | every operation keeps the books, given that a new session's path has no file and no session: a session's file is the concatenation of its chunks, as long as its count, and an accepted file has its declared size and checksum |
| `FileLedgers.StartIsSafe` | java_chat_server/src/main/java/project/java_chat_server/service/FileTransferService.java:39-49 | a start keeps the books if and only if it is refused, or its size is positive and its path has no file and no session |
| `FileLedgers.EndBooked` | java_chat_server/src/main/java/project/java_chat_server/service/FileTransferService.java:62-93 | ending keeps the books, and a complete transfer always has its file |
| `FileLedgers.DiskAccounting` | java_chat_server/src/main/java/project/java_chat_server/service/FileTransferService.java:39-110 | so does every run |
| `FileLedgers.DiskAccountingIsExact` | java_chat_server/src/main/java/project/java_chat_server/service/FileTransferService.java:39-110 | a sequence of operations keeps the books throughout if and only if every start in it is such a start |
| `FileLedgers.DiskAccountingFromStart` | java_chat_server/src/main/java/project/java_chat_server/service/FileTransferService.java:39-110 | after any run: sessions count the bytes of their chunks and their files are the concatenations, accepted files are as they were with their size and checksum, and there is no other file |
| `FileLedgers.SharedPathMixesFiles` | java_chat_server/src/main/java/project/java_chat_server/service/FileTransferService.java:44-58 | after any start at a path that has a file or a session, the next chunk goes behind the accepted file's content or the other session's chunks |
| `FileLedgers.SameMillisecondSameName` | java_chat_server/src/main/java/project/java_chat_server/service/FileTransferService.java:44-93 | two clients, one name, one millisecond: both are complete, the first to end fails its checksum and takes the file along, the second can never end |
| `FileLedgers.OthersLeaveMine` | java_chat_server/src/main/java/project/java_chat_server/service/FileTransferService.java:39-110 | another client's operation changes neither a client's session nor its files |
| `FileLedgers.MineAsAlone` | java_chat_server/src/main/java/project/java_chat_server/service/FileTransferService.java:39-110 | a client's own operation does what it would do with no other client there |
| `FileLedgers.Isolation` | java_chat_server/src/main/java/project/java_chat_server/service/FileTransferService.java:39-110 | in every interleaving a client's transfers are decided by its own operations alone |
| `FileSending.ChunksNext` | py_chat_client/src/core/chat_client.py:52-58 | one turn of the chunk loop takes the next chunk, and an empty read ends the file |
| `FileSending.SendFile` | py_chat_client/src/core/chat_client.py:45-62 | the loop hands over the start request, the chunks of the file and the end request with the digest of what was read |
| `FileSending.ChunksRebuild` | py_chat_client/src/core/chat_client.py:51-58 | the chunks put together are the file |
| `FileSending.ChunksAreFull` | py_chat_client/src/core/chat_client.py:51-58 | every chunk but the last has the full size, and none is empty |
| `FileSending.RequestIsExact` | java_chat_server/src/main/java/project/java_chat_server/service/handlers/FileStartHandler.java:32-53 | which message of which client asks for which operation, in both directions: login for starts and ends, a session is left to the service for chunks, nothing for an empty payload or another type, and never a cancel |
| `FileArrival.AllSmall` | C_chat_lib/client_lib/src/chat_client.c:201-208 | with chunks or a file within the limit every chunk is sent |
| `FileArrival.SmallLoses` | C_chat_lib/client_lib/src/chat_client.c:201-208 | with chunks over the limit a file over the limit loses bytes |
| `FileArrival.ContentIsWhole` | C_chat_lib/client_lib/src/chat_client.c:201-208 | what gets through is as long as the file if and only if the file can arrive, and then it is the file |
| `FileArrival.CanArriveMeans` | C_chat_lib/client_lib/src/chat_client.c:201-208 | which files can arrive, in numbers |
| `FileArrival.HandledMeans` | java_chat_server/src/main/java/project/java_chat_server/service/FileTransferService.java:39-97 | what `FileArrives` asks of the run, in plain terms: memory for every payload that fits, books in order, and the operations that the parsed messages ask for |
| `FileArrival.ReadsMeans` | C_chat_lib/client_lib/src/chat_client.c:201-208 | what it asks of the codec: the reader gives back what was written, in 1 to 4091 bytes |
| `FileArrival.FileRequests` | java_chat_server/src/main/java/project/java_chat_server/service/handlers/FileStartHandler.java:28-61 | the messages of a file become a start, an append for every chunk that fits, and an end; no start for an empty file |
| `FileArrival.FileAlone` | java_chat_server/src/main/java/project/java_chat_server/service/handlers/FileEndHandler.java:28-60 | these operations alone end in an accepted transfer if and only if the file can arrive, and in no session either way unless the read size was an error |
| `FileArrival.FileArrives` | py_chat_client/src/core/chat_client.py:35-71 | end to end, for every file, chunk size, cutting of the stream and interleaving with other clients: accepted and stored unchanged if and only if the file is not empty, is read in pieces, and pieces or file are within 4091 bytes; otherwise the session is gone with nothing accepted |
| `FileArrival.DefaultChunkSizeIsTooLarge` | py_chat_client/src/core/chat_client.py:9-17 | end to end with the default chunk size, a file is accepted if and only if it has 1 to 4091 bytes |
| `FileArrival.FileMessagesMean` | py_chat_client/src/core/chat_client.py:45-62 | what is sent for a file: name and size, its bytes in chunks, the digest of the file |
| `FileArrival.SendNativeFile` | C_chat_lib/client_lib/src/chat_client.c:250-263 | the loop of the C client's file sender sends what `NativeFileMeans` describes |
| `FileArrival.NativeFileMeans` | C_chat_lib/client_lib/src/chat_client.c:250-263 | that is a start, the file in pieces of 4096 bytes, and an empty end |
| `FileArrival.NativeFilesNeverArrive` | C_chat_lib/client_lib/src/chat_client.c:236-264 | no transfer by the C client's file sender is ever accepted |
| `UserRegistry.UserService.constructor` | java_chat_server/src/main/java/project/java_chat_server/service/UserService.java:15 | nobody is logged in at first |
| `UserRegistry.UserService.Login` | java_chat_server/src/main/java/project/java_chat_server/service/UserService.java:17-32 | registers, or refuses in the order logged in, invalid, taken |
| `UserRegistry.UserService.Logout` | java_chat_server/src/main/java/project/java_chat_server/service/UserService.java:34-40 | removes the client and returns the nickname it had |
| `UserRegistry.NicknameRule` | java_chat_server/src/main/java/project/java_chat_server/service/UserService.java:54-59 | a nickname is valid if and only if it has 3 to 15 characters, all ASCII letters or digits |
| `UserRegistry.RegisterIsExact` | java_chat_server/src/main/java/project/java_chat_server/service/UserService.java:17-32 | each outcome of a login if and only if its condition, and the registry after it |
| `UserRegistry.UnregisterIsExact` | java_chat_server/src/main/java/project/java_chat_server/service/UserService.java:34-40 | a logout takes just the client off and gives its nickname |
| `UserRegistry.NicknamesAfterLogin` | java_chat_server/src/main/java/project/java_chat_server/service/UserService.java:30 | a login adds just its nickname to those in use |
| `UserRegistry.NicknamesAfterLogout` | java_chat_server/src/main/java/project/java_chat_server/service/UserService.java:35 | with unique nicknames a logout frees just its own |
| `UserRegistry.StepKeepsUnique` | java_chat_server/src/main/java/project/java_chat_server/service/UserService.java:17-59 | a step of a login under the lock, or a logout without it, keeps nicknames unique and the passed checks valid |
| `UserRegistry.NicknamesStayUnique` | java_chat_server/src/main/java/project/java_chat_server/service/UserService.java:17-59 | in every interleaving no two clients share a nickname, and each has 3 to 15 ASCII letters and digits |
| `UserRegistry.LoginIsAtomic` | java_chat_server/src/main/java/project/java_chat_server/service/UserService.java:17-32 | a login finishes as if it had been performed whole at its last step, outcome included |
| `UserRegistry.LoginsAreConserved` | java_chat_server/src/main/java/project/java_chat_server/service/UserService.java:17-40 | at most one login is under way, every one that was begun is under way or finished, and a logout is never blocked |
| `UserRegistry.RunSnoc` | java_chat_server/src/main/java/project/java_chat_server/service/UserService.java:17-40 | a run goes on from where it got to: no step of a login and no logout is left out |
| `Presence.ChatService.constructor` | java_chat_server/src/main/java/project/java_chat_server/service/ChatService.java:38-44 | nothing has been told at first |
| `Presence.ChatService.HandleLogin` | java_chat_server/src/main/java/project/java_chat_server/service/handlers/LoginRequestHandler.java:25-49 | response, registry and join notice of a login request, with its error branches |
| `Presence.ChatService.HandleClientDisconnected` | java_chat_server/src/main/java/project/java_chat_server/service/ChatService.java:50-64 | the client is logged out, and its departure is told even without a nickname |
| `Presence.LoginIsExact` | java_chat_server/src/main/java/project/java_chat_server/service/handlers/LoginRequestHandler.java:25-49 | a login request is accepted if and only if the trimmed name is valid and free and the client has none; everybody else hears of it; each refusal with its condition |
| `Presence.DisconnectIsExact` | java_chat_server/src/main/java/project/java_chat_server/service/ChatService.java:50-64 | a departure takes the client off the list and is heard by everybody |
| `Presence.AfterSnoc` | java_chat_server/src/main/java/project/java_chat_server/service/ChatService.java:50-127 | a run of logins and departures takes each of them in turn |
| `Presence.PresenceStep` | java_chat_server/src/main/java/project/java_chat_server/service/ChatService.java:50-127 | an event keeps the replayed notices equal to the registry if and only if it changes nobody's presence or its notice is delivered |
| `Presence.PresenceRun` | java_chat_server/src/main/java/project/java_chat_server/service/ChatService.java:50-127 | every run with delivered notices keeps them equal, and nicknames unique |
| `Presence.ReplayGivesRegistered` | java_chat_server/src/main/java/project/java_chat_server/service/ChatService.java:50-127 | replaying the notices from the start gives exactly the registered nicknames |
| `Presence.SharedNicknameBreaksReplay` | java_chat_server/src/main/java/project/java_chat_server/service/ChatService.java:50-64 | in every room that is up to date, a departure keeps the replay right if and only if nobody else has the nickname |
| `Presence.UnreportedClientKeepsNickname` | java_chat_server/src/main/java/project/java_chat_server/service/UserService.java:17-40 | until its descriptor is reported disconnected, a registered client's nickname and descriptor cannot log in again |
| `Presence.BlockedMeans` | java_chat_server/src/main/java/project/java_chat_server/service/UserService.java:17-32 | what blocked is, in plain terms: a login on the descriptor, or under the nickname on any, is refused |
| `Presence.NeverReportedMeans` | java_chat_server/src/main/java/project/java_chat_server/service/ChatService.java:50-64 | no event of the run is a departure of the descriptor |
| `Departures.Report` | C_chat_lib/server_lib/src/chat_server.c:529 | the disconnect callback logs the client out and leaves the server's tables and parsers alone |
| `Departures.HandleClient` | C_chat_lib/server_lib/src/chat_server.c:506-543 | a registered client is dropped without the room knowing if and only if what it sent does not parse; its nickname and descriptor are then blocked in every later run without a report |

## Left out

- Transport.FrameMessage: takes it that no object in memory has more than 2^63 - 1 bytes, and that a buffer for a wrapped frame size holds a header, which the code writes without a check.
- ServerContexts.ServerContext.SendFrame: drops a payload larger than any object, which the code cannot meet.
- ServerContexts.ServerContext.ProcessCommands: sequential; commands that arrive during the drain are in the step relation of `EventLoops`.
- ServerIterations.DrainCommands: likewise.
- ServerIterations.DrainAndAccept: likewise.
- ServerIterations.RunIteration: likewise, and the callbacks' own pushes are steps of `EventLoops` only. Whether a payload can be allocated depends on its length alone there; `StreamParser.ParseStream` allows any answer per call.
- LoopRefinement.Iterate: the same iterations; pushes between them are `LoopRefinement.Enqueue`.
- Departures.HandleClient: what the delivered messages ask for is not carried out in it.
- Lifecycles.ShutdownReturnsStopped: does not cover a loop thread that calls shutdown on its own server, where joining oneself is an error.
- FileArrival.FileArrives: takes the JSON codec as unknown functions that read what they wrote within one frame, and SHA-256 as an unknown function; file names whose trimmed form is empty are refused by the server.
- FileLedgers.DiskAccounting: file operations are atomic and succeed; a file name is plain text, without directories in it, and the clock does not show a negative time.
- EventLoopTheorems.DeliveryIsExact: counts a message whose send failed as not written; `ClientDecodesDeliveries` takes its partial frame into account.
- Null checks of parser, callback and context arguments; `errno`, logging, error callbacks and calls repeated after EINTR.
- Opening, binding and accepting sockets: `accept` fails or returns a descriptor that is not open. Writes to the pipes succeed.
- The thread that `pthread_create` fails to make: the recorded thread is taken to stay as it was.
- The raw text that a refused client is sent before its socket is closed, and client addresses.
- A command for which the queue has no node: it is dropped and its memory is lost; the model only drops it.
- `_cleanup_server_context` (C_chat_lib/server_lib/src/chat_server.c:259-317): it also closes what free slots hold (`FreeSlotsAreExact`).
- The PING branch (C_chat_lib/server_lib/src/chat_server.c:876-880): a parsed type is at most 255, so it is never taken.
- Messages of types other than login and file transfer, their handlers, error texts, and JSON responses.
- A transfer outlives its client's connection: nothing cancels it, and nothing here says when it is.
- The Java `long` and `int` ranges of sizes and identifiers, directories on disk, and the JNA and ctypes layers.
- The Python user interface, event manager and data transfer objects; generated build files.
