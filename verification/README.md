# Skelenote: a verified model of sync, history and device state

This project models the parts of Skelenote in which several steps, several parties or several
launches have to fit together, and proves what they keep. It is about:

- the **self-hosted relay**: one append-only log of encrypted updates per user, with paged
  catch-up, compaction by clients, revocation of devices, and rooms that close when idle;
- the **application's own sync client** against that relay;
- the **local-network link**: length-prefixed messages over a TCP stream, the blocklist of
  revoked devices, and the cache of paired devices with their addresses;
- **navigation and Time Machine**: the back and forward stacks with the split pane, date keys and
  weeks, the day's timeline, the cumulative frontier and the grouping of list blocks;
- the **device key** over many launches, and the **texts that pair two devices**.

`dafny verify dfyconfig.toml` checks the whole project.

## How it is modelled

Objects that the program updates in place are classes: `SyncStorage`, `SyncRoom`,
`SyncRelayServer`, `ShippedClient`, `ServerConnection`, `ClientConnection`, `DeviceBlocklist`,
`PairedDevicesCache`, `NavigationProvider`, `Stronghold`. Each of their methods is proved equal to
a function on the object's abstract value, and the long statements, about runs, are proved about
those functions. Code that fills a buffer or searches in a loop is a method with a loop. Protocols
are step systems: `RelaySystem` has any number of clients and a network that may delay, repeat,
reorder or lose every packet; `Blocklist` interleaves any number of calls at their lock and file
operations.

An update is a set of CRDT operations and merging is union. JSON headers, decryption and the
keychain's answers are parameters. Dates are civil dates, with the arithmetic of section 21.4.1 of
ECMA-262. Library sorts are stable. Base64 is that of sections 3.2, 3.5 and 5 of RFC 4648.

## The main results

1. `RelaySystem.NothingIsEverLost`: in every run, what a client knows joined with the rows above
   its position is everything ever stored. The simpler statement, that a client has every row up
   to its position, is false while it pages (`MidPagingClientLacksOldRows`), because a compaction
   puts its snapshot at the end of the log. `CompactKeepsCover` is the step that makes the true
   statement inductive.
2. `RelayServer.RoomsSeemAlwaysOpen`: closing idle rooms and opening them again refines keeping
   every room open for ever, in every answer of every run, as long as no closed room has a socket
   attached; `CleanUpSilencesAttached` is the other half.
3. `RelayConnections.GreetedHearsEverything`, `GreetedIsToldToClose` and `ResetForgetsTheLog`: what a
   registered connection hears over any run, and what a reset leaves.
4. `LanFraming.ServerConnection.ReadLoop` and `LanFraming.ClientConnection.ReadLoop`: what is
   delivered depends on the bytes alone, not on how they were split into reads;
   `ReassemblyExact` says what that is for well-formed frames.
5. `DeviceKey.LaunchGivesExactly` and `ReadableExactly`: which key a launch uses, and over any
   launches, when a stored master key can still be read.
6. `PairedDevices.CacheInvariant`, `ReconnectCharges` and `AddingDevices.AddingStores`: the cache over
   any history, one pass, and a device that is paired once more.
7. `Navigation.StacksRefineTape`: two stacks refine a tape with a cursor; `TwoSwapsRestore` for the panes.
8. `BlockGroups.GroupBlocks` with `GroupingUnique`: a grouping loses and reorders nothing, and
   there is only one.
9. `Blocklist.BlocksAreKept` and `StartupLosesNothingExactly`: every interleaving of block calls
   keeps all entries, and which schedules of the background load do.

## Where the code does less than one would like

Each of these is proved as an exact condition or shown by a trace that holds for all its data.

- **Reset.** `clearAllUpdates` zeroes the shadow counter but SQLite's AUTOINCREMENT goes on, so
  after a reset of a log in which anything was ever stored the sequence returned by `storeUpdate`
  is not the key of the row (`ResetBreaksExactly`, `StoresAfterReset`), and an ACK denies history
  to exactly the clients named in `HasHistoryAfterReset`. Reopening a log that has rows heals it.
- **The shipped client** moves its position when the ACK comes, before the history it asks for,
  and asks for one page per connection. If the connection drops in between, what was missing is
  never asked for again while the application runs (`DroppedHistoryIsNeverFetched`; a restarted one
  begins at 0). A compaction sent in that window would be safe for the others only if its sender
  knew everything (`CompactBeforeHistoryExactly`); the client can send one, but the application
  does not at present: its only way there, src/lib/loro/store.ts:382, has no caller. More
  than 100 missing rows take more than one connection (`OneConnectCompletesExactly`).
- **Self-revocation.** The relay never closes the sender of a revocation, so a revocation sent by
  the revoked device itself leaves that connection served (`RevokeShutsOutExactly`). A connection
  that was told to close is still answered until its socket does close.
- **A negative lastSequence** in a HELLO is promised history by an empty log (`HasHistoryExact`).
- **Idle clean-up** looks at connections that have said HELLO; a socket that has not is attached to
  a closed room for good (`CleanUpSilencesAttached`).
- **The blocklist** is loaded in the background. Storing the load replaces memory by what the file
  held when it was read, and a save before that read replaces the file by what was blocked until
  then; `StartupLosesNothingExactly` says which schedules lose nothing. A block that overlaps the
  load can be forgotten in memory, or on disk too, or can wipe the file before it is read
  (`LoadOverlappingBlockLoses`).
- **A parsed date key** is the date formatted only from the year 100 on
  (`ParseUndoesFormatExactly`). String order of the keys is calendar order exactly between years
  that are in step (`KeyOrderExactly`): always among years with equally many digits, and not, for
  example, between the years 101 to 999 and the year 1000 (`ShortYearsSortWrong`).
- **The timeline** finds changes by timestamp and peer. Timestamps are whole seconds
  (src/lib/loro/versions.ts:116), so one peer can have two changes with the same pair, and then
  the two index maps are not inverse (`InverseExactly`).
- **A comparison** shows two different objects once `openInSplit` is called while it is on
  (`SameObjectKeptExactly`).
- **The v3 marker.** A failed write of the marker is ignored, and at the next launch the salt and
  the stored master key are discarded (`MarkerMattersExactly`).
- **`from_url`** tests the scheme as a prefix and never looks at the `v` parameter
  (`AcceptedExactly`); the version that counts is the one inside the payload.

## Model

| member | source | states |
|---|---|---|
| RelayLog.StoreReturnsKey | sync-relay/src/storage.ts:100-111 | the value returned is the key of the row written exactly when counter and AUTOINCREMENT agree; a synced log stays synced and the new key is above all others |
| RelayLog.CompactSynced | sync-relay/src/storage.ts:142-155 | compaction with any upToSequence keeps the counter equal to the largest key |
| RelayLog.CompactReplacesExactly | sync-relay/src/storage.ts:142-155 | exactly the rows above upToSequence stay, followed by the snapshot under a fresh key at the end of the log |
| RelayLog.ReopenIdentity | sync-relay/src/storage.ts:81-85 | closing and reopening gives back the same log if and only if the counter was the largest key |
| RelayLog.ResetFreeRun | sync-relay/src/storage.ts:50-155 | in every run without reset the counter is the largest key and every sequence returned is the key of the row written |
| RelayLog.KeysNeverReused | sync-relay/src/storage.ts:50-164 | in every run, resets included, inserted keys strictly increase and never come back |
| RelayLog.ResetBreaksExactly | sync-relay/src/storage.ts:160-164 | reset leaves the counter right if and only if nothing had ever been stored |
| RelayLog.ResetForgets | sync-relay/src/storage.ts:160-164 | after a reset and stores, from a log of any content, the rows are exactly what was stored since, in order; without a store every page is empty |
| RelayLog.StoresAppend | sync-relay/src/storage.ts:100-111 | stores leave the rows that are there and add theirs behind, in order, under the keys that follow |
| RelayLog.StoresAfterReset | sync-relay/src/storage.ts:100-164 | in a run of a reset, from a log of any content that had reached key h, and stores: the stores return 1, 2, … but write h+1, h+2, …; reopening puts the counter right if h is 0 or there was a store |
| RelayLog.HasHistoryExact | sync-relay/src/sync-room.ts:212-226 | hasHistory says exactly whether a catch-up from the same sequence would return rows, if and only if that sequence is not negative or there are rows |
| RelayLog.HasHistoryAfterReset | sync-relay/src/sync-room.ts:212-226 | in a run of a reset at key h and n stores the promise is wrong exactly, and only if n > 0, for sequences in [n, h+n) |
| RelayLog.PageThenRest | sync-relay/src/storage.ts:116-137 | a page and the rows above its last key make up the rows above the start, and fewer remain |
| RelayLog.PagingComplete | sync-relay/src/sync-room.ts:304-331 | repeating CATCH_UP from each toSequence yields every row above the start once, in order, at most 100 at a time |
| RelayStorage.SyncStorage.constructor | sync-relay/src/storage.ts:50-88 | opening a file reads the rows and sets the counter to the largest key, or 0 |
| RelayStorage.SyncStorage.StoreUpdate | sync-relay/src/storage.ts:100-111 | appends a row under the next AUTOINCREMENT key and returns the counter, which is that key while synced |
| RelayStorage.SyncStorage.GetUpdatesAfter | sync-relay/src/storage.ts:116-137 | the first rows above the sequence, up to the limit, changing nothing |
| RelayStorage.SyncStorage.CompactUpdates | sync-relay/src/storage.ts:142-155 | deletes up to the sequence and appends the snapshot; a synced storage stays synced |
| RelayStorage.SyncStorage.ClearAllUpdates | sync-relay/src/storage.ts:160-164 | deletes all rows and zeroes the counter, and leaves AUTOINCREMENT and revocations alone |
| RelayStorage.SyncStorage.StoreRevocation | sync-relay/src/storage.ts:179-193 | inserts or replaces the revocation of one device |
| RelayStorage.SyncStorage.Close | sync-relay/src/storage.ts:237-240 | what is left is the file; opening it again is the identity while synced |
| RelayRoom.SyncRoom.constructor | sync-relay/src/sync-room.ts:43-47 | a room starts with its file opened and no connection |
| RelayRoom.SyncRoom.BroadcastExcept | sync-relay/src/sync-room.ts:542-552 | one packet to every registered connection but the sender |
| RelayRoom.SyncRoom.HandleMessage | sync-relay/src/sync-room.ts:90-391 | the new log, revocations and connections and the packets sent, for every kind of message modelled |
| RelayRoom.SyncRoom.HandleDeviceRevoke | sync-relay/src/sync-room.ts:438-503 | stores the revocation, acknowledges, notifies every other connection and closes those of the device |
| RelayRoom.SyncRoom.HandleSocketClose | sync-relay/src/sync-room.ts:521-530 | the connection is gone and nothing else |
| RelayRoom.SyncRoom.Reset | sync-relay/src/sync-room.ts:557-560 | clears the log and keeps revocations and connections |
| RelayConnections.GreetingRegistersExactly | sync-relay/src/sync-room.ts:172-234 | a HELLO that is not refused registers its connection under its device, sequence and encryption, and no other; the ACK counts the connections; a refused one changes no registration |
| RelayConnections.GreetedHearsEverything | sync-relay/src/sync-room.ts:239-299 | after it, through any events but the close of its socket or room, the connection is sent every update and snapshot of every other |
| RelayConnections.GreetedIsToldToClose | sync-relay/src/sync-room.ts:438-503 | and a revocation of its device from another connection notifies it and tells it to close, unless it has said HELLO as another device |
| RelayConnections.StaysRegistered | sync-relay/src/sync-room.ts:172-234 | no other message, close or reset takes a registered connection away |
| RelayConnections.StaysTheDevice | sync-relay/src/sync-room.ts:172-206 | or its device id |
| RelayConnections.ClosedHearsNothing | sync-relay/src/sync-room.ts:521-530 | after its socket or the room has closed it is sent nothing until it says HELLO again |
| RelayConnections.ClosingExactly | sync-relay/src/sync-room.ts:521-580 | a closing socket takes only itself away; a closing room takes all and tells all to close |
| RelayConnections.RelayedExactly | sync-relay/src/sync-room.ts:239-299 | who is sent an update or a snapshot: every other registered connection, and nobody else |
| RelayConnections.RevocationTellsExactly | sync-relay/src/sync-room.ts:438-503 | who is sent what by a revocation, who is told to close, and what it leaves alone |
| RelayConnections.AnsweredExactly | sync-relay/src/sync-room.ts:90-503 | which messages are answered to their sender, with at most one packet, and with which kind |
| RelayConnections.HistoryDescribesUpdates | sync-relay/src/sync-room.ts:304-358 | the header of a HISTORY describes its updates: number, first and last key; they are the first rows above the sequence asked for, all if fewer than 100 |
| RelayConnections.CompactMessageReplaces | sync-relay/src/sync-room.ts:369-391 | a COMPACT replaces the rows up to its sequence by its snapshot and sends nothing |
| RelayConnections.LogGrows | sync-relay/src/sync-room.ts:239-299 | over any events without reset and compaction the log grows by exactly the payloads sent, in order, through closes, reopenings and revocations |
| RelayConnections.ResetForgetsTheLog | sync-relay/src/sync-room.ts:557-560 | after a reset the log holds exactly what has been sent since, whatever it held before |
| RelayConnections.ResetSilences | sync-relay/src/server.ts:85-110 | until something is stored no CATCH_UP is answered; revocations and registrations stay |
| RelayRoom.AckPromisesHistoryExactly | sync-relay/src/sync-room.ts:172-234 | a HELLO that is not refused is told hasHistory exactly when a CATCH_UP from its lastSequence would be answered, if and only if that is not negative or something is stored |
| RelayRoom.RevokeShutsOutExactly | sync-relay/src/sync-room.ts:438-484 | a revocation shuts the device out at once, except on the connection that sent it |
| RelayRoom.ShutOutForever | sync-relay/src/sync-room.ts:172-206 | no later message, close, reset or reopening undoes that |
| RelayRoom.RevokedDeviceStaysShutOut | sync-relay/src/sync-room.ts:438-503 | after a revocation by another device, in every later state each connection of the device has been told to close, and every HELLO as it is refused |
| RelaySystem.StoreKeepsCover | sync-relay/src/sync-room.ts:239-250 | a stored update keeps every claim "state plus rows above position is everything" |
| RelaySystem.CompactKeepsCover | sync-relay/src/sync-room.ts:369-391 | a compaction whose sender can make the claim keeps everybody else's claim |
| RelaySystem.PageMovesCover | sync-relay/src/sync-room.ts:304-358 | reading a page moves the claim from the page's start to its toSequence |
| RelaySystem.StepKeepsInvariant | sync-relay/src/sync-room.ts:172-391 | every step of clients, network and relay keeps all claims, those of packets in flight included |
| RelaySystem.RunKeepsInvariant | sync-relay/src/sync-room.ts:172-391 | so does every run |
| RelaySystem.NothingIsEverLost | sync-relay/src/sync-room.ts:239-391 | in every run client state joined with the rows above its position covers everything stored; a client at currentSequence misses nothing; the log alone serves a new client |
| RelaySystem.UpdateReachesOthers | sync-relay/src/sync-room.ts:239-250 | an update is stored and reaches every other registered connection, and not its sender |
| RelaySystem.RepeatedCatchUpCompletes | sync-relay/src/sync-room.ts:304-331 | from any state of any run there is a continuation, of one client's own CATCH_UP requests and their answers alone, that brings it to currentSequence and to everything stored |
| RelaySystem.CatchUpRounds | sync-relay/src/sync-room.ts:304-331 | that continuation, round by round, from any state that keeps the claims |
| RelaySystem.MidPagingClientLacksOldRows | sync-relay/src/storage.ts:142-155 | a client that reads one page after a compaction is past the compacted rows and knows nothing of them |
| SyncClient.ShippedClient.HandleAck | src/lib/sync/client.ts:431-464 | the position moves to currentSequence at once; one CATCH_UP from the old position is sent if there is history |
| SyncClient.ShippedClient.HandleHistory | src/lib/sync/client.ts:537-588 | every update that decrypts is merged, the others are skipped, and the position becomes toSequence |
| SyncClient.ReadableExactly | src/lib/sync/client.ts:549-588 | an operation is merged if and only if some update that decrypts holds it, wherever those that do not stand |
| SyncClient.ReadableAll | src/lib/sync/client.ts:537-588 | if all decrypt, that is the history step of the distributed system |
| SyncClient.AckKeepsCoverExactly | src/lib/sync/client.ts:457-464 | between ACK and HISTORY the position is honest if and only if the client missed nothing |
| SyncClient.DeliveredConnectIsHonest | src/lib/sync/client.ts:537-588 | once the HISTORY is there it is honest again |
| SyncClient.OneConnectCompletesExactly | src/lib/sync/client.ts:457-464 | one connection reaches currentSequence if and only if at most 100 rows were missing, and completes exactly when it knows the rest |
| SyncClient.DroppedHistoryIsNeverFetched | src/lib/sync/client.ts:457-464 | if the connection drops before the HISTORY, what was missing stays missing through all later connections of that client object, stores and compactions, unless an update or snapshot brings it again |
| SyncClient.CompactBeforeHistoryExactly | src/lib/sync/client.ts:260-290 | a compaction sent in that window keeps everything if and only if its sender knew everything |
| RelayWire.DecodedExactly | sync-relay/src/protocol.ts:108-119 | a message is read as type and payload if and only if it begins with their frame; which are ignored and which make the reader throw |
| Bytes.Le32OfFromLe32 | sync-relay/src/protocol.ts:96-119 | every four bytes are the length field of exactly one length |
| Bytes.Le32Bytes | sync-relay/src/protocol.ts:96-105 | the four bytes of a length, the lowest first |
| RelayWire.EncodeMessage | sync-relay/src/protocol.ts:96-105 | the bytes are type, little-endian length, payload |
| RelayWire.WriteHistory | sync-relay/src/sync-room.ts:325-358 | the computed size is filled exactly, with no gap and no overrun, for every list of updates |
| RelayWire.ReadUpdatesLoop | src/lib/sync/client.ts:549-574 | the loop reads length and data at a moving offset and fails when a length is missing |
| RelayWire.HistoryRoundTrip | sync-relay/src/sync-room.ts:325-358 | through writer, outer frame and reader the client gets the header and exactly the updates |
| RelayWire.CompactRoundTrip | sync-relay/src/sync-room.ts:369-381 | upToSequence and snapshot come back from what the client sends |
| RelayWire.CompactReadExactly | sync-relay/src/sync-room.ts:369-381 | a payload is read as (upTo, snapshot) if and only if, after the length field, it cuts into a header that names upTo and that snapshot, at the announced length or at the end |
| RelayServer.SyncRelayServer.HandleConnection | sync-relay/src/server.ts:158-190 | a connection joins the open room of its user, or opens one on the user's file |
| RelayServer.SyncRelayServer.CleanupIdleRooms | sync-relay/src/server.ts:195-206 | exactly the rooms without a greeted connection that have been idle too long are closed |
| RelayServer.ConnectedIsServed | sync-relay/src/server.ts:158-190 | a connection is served from then on, by the open room as it is or by one opened on the user's file with nobody registered |
| RelayServer.ConnectedIsAnswered | sync-relay/src/server.ts:158-190 | so its HELLO is answered however long after, unless its socket closes or a clean-up closes a room with sockets attached |
| RelayServer.ServedIsHandled | sync-relay/src/server.ts:158-190 | a message on a served socket is handled by the room, answered with what the room sends, and written through to the file |
| RelayServer.UnservedIsLost | sync-relay/src/sync-room.ts:90-170 | a message on a socket whose room object has been closed changes nothing and is answered only if it is a revocation, with a failure |
| RelayServer.DisconnectedIsGone | sync-relay/src/sync-room.ts:521-530 | a closed socket is no longer served and no other is affected |
| RelayServer.CleanUpClosesExactly | sync-relay/src/server.ts:195-206 | exactly the rooms with nobody registered and no activity for longer than the timeout are closed, and nothing else changes |
| RelayServer.ActivityKeepsRoom | sync-relay/src/server.ts:158-206 | any action on a user's socket keeps the room open for the timeout |
| RelayServer.HandleKeepsSynced | sync-relay/src/sync-room.ts:239-391 | no message to a room upsets its counter or registers any socket but the sender |
| RelayServer.ActKeepsValid | sync-relay/src/server.ts:158-206 | every room agrees with its file and every file reopens in sync, for all users, after every action |
| RelayServer.ActAlike | sync-relay/src/server.ts:158-206 | servers that look alike answer alike and stay alike under every action |
| RelayServer.CleanUpInvisible | sync-relay/src/server.ts:195-206 | a clean-up that closes only unattached rooms changes no later answer to anyone |
| RelayServer.RoomsSeemAlwaysOpen | sync-relay/src/server.ts:158-206 | over whole runs, closing and reopening rooms refines keeping them all open for ever |
| RelayServer.CleanUpSilencesAttached | sync-relay/src/server.ts:195-206 | a socket attached to a closed room gets no answer to the HELLO that would have been acknowledged |
| LanFraming.FrameRoundTripExactly | src-tauri/src/network/protocol.rs:100-148 | decoding undoes encoding, whatever follows, if and only if the payload is at most 128 MiB |
| LanFraming.TypesExactly | src-tauri/src/network/protocol.rs:13-76 | the type bytes and the types are in one-to-one correspondence, both tables agreeing |
| LanFraming.DecodedExactly | src-tauri/src/network/protocol.rs:100-148 | a message comes out if and only if the data begin with its frame, its type is known and its payload within the limit |
| LanFraming.RefusedExactly | src-tauri/src/network/protocol.rs:100-148 | which header gives which refusal: unknown type first, then a length above 128 MiB, then an incomplete payload |
| LanFraming.AllAccountedFor | src-tauri/src/network/server.rs:311-364 | no message is lost or made up: those forwarded, the pings and the pongs are all; what is forwarded are exactly the others, to the client pings too |
| LanFraming.ReceivedExactly | src-tauri/src/network/server.rs:311-364 | what counts as received are the reads up to the first empty one, in order, and nothing after it |
| LanFraming.DecodeStable | src-tauri/src/network/protocol.rs:118-148 | more bytes change a verdict only by completing a frame |
| LanFraming.ParseAppend | src-tauri/src/network/server.rs:311-364 | parsing what has come and then the rest with what comes next is parsing it all |
| LanFraming.BufferBounded | src-tauri/src/network/server.rs:314-361 | between reads no complete frame is left, so the buffer is below 5 bytes plus 128 MiB unless its head is malformed |
| LanFraming.ParseEncoded | src-tauri/src/network/protocol.rs:100-148 | a stream of well-formed frames parses to exactly those messages with nothing left |
| LanFraming.ServerConnection.ProcessBuffer | src-tauri/src/network/server.rs:314-363 | all complete messages are handled in order: pings answered, pongs noted, the rest forwarded; an oversized length disconnects |
| LanFraming.ServerConnection.ReadLoop | src-tauri/src/network/server.rs:300-364 | however the bytes are split into reads, what is handled is what is in the bytes |
| LanFraming.StuckForever | src-tauri/src/network/server.rs:350-361 | after an oversized or unknown head nothing more comes out, whatever arrives |
| LanFraming.ClientConnection.ProcessBuffer | src-tauri/src/network/client.rs:192-232 | the same framing: pongs noted, everything else delivered, malformed heads reported |
| LanFraming.ClientConnection.ReadLoop | src-tauri/src/network/client.rs:170-237 | delivery depends on the bytes alone; errors are reported once per read since an unknown head, and an oversized length ends without Disconnected |
| LanFraming.ReassemblyExact | src-tauri/src/network/server.rs:300-364 | for every list of well-formed frames and every split, the loops see exactly those messages and end with an empty buffer |
| Blocklist.DeviceBlocklist.Load | src-tauri/src/network/blocklist.rs:61-84 | replaces the set by the file's ids, or leaves it if there is no file |
| Blocklist.DeviceBlocklist.Save | src-tauri/src/network/blocklist.rs:87-114 | the file holds exactly the set |
| Blocklist.DeviceBlocklist.Block | src-tauri/src/network/blocklist.rs:123-134 | adds the id and saves, or does nothing if it is there |
| Blocklist.StepKeepsConsistent | src-tauri/src/network/blocklist.rs:87-134 | every step of any interleaving keeps: a save under way holds exactly the current set, and the file lags only while one is due |
| Blocklist.BlocksAreKept | src-tauri/src/network/blocklist.rs:87-134 | so in every interleaving without a load the set only grows and the file equals it whenever no save is due |
| Blocklist.LoadAloneIsConsistent | src-tauri/src/network/blocklist.rs:61-84 | a load that runs alone establishes that |
| Blocklist.WhatALoadKeepsExactly | src-tauri/src/network/blocklist.rs:61-134 | however a load overlaps with blocks and saves, memory afterwards is what the file held when read and what was blocked since the load was stored; so known ids are kept if and only if they are in that |
| Blocklist.FileIsMemoryAtLastWrite | src-tauri/src/network/blocklist.rs:87-114 | in every run, loads included, the file is what memory was at the last write |
| Blocklist.FileKeptExactly | src-tauri/src/network/blocklist.rs:87-114 | before a load is stored the file keeps its ids if and only if nothing was written or the last write came after all of them had been blocked again |
| Blocklist.StartupLosesNothingExactly | src-tauri/src/lib.rs:187-193 | from a start with the load in the background: listed and blocked ids are all in memory at the end if and only if each was in the file as it was read or was blocked after the load was stored, told from the schedule alone |
| Blocklist.LoadOverlappingBlockLoses | src-tauri/src/lib.rs:187-193 | three interleavings of the background load with one block that lose entries, for every list in the file, derived from those conditions |
| AddressCache.CompareIsPriority | src-tauri/src/network/cache.rs:118-147 | the comparator is "ever succeeded first, then most recently used": the success-rate tier never decides |
| AddressCache.CompareTotalPreorder | src-tauri/src/network/cache.rs:118-147 | it is a total preorder |
| AddressCache.PrioritizedOrder | src-tauri/src/network/cache.rs:118-147 | the list tried is a permutation in that order |
| AddressCache.PruneExact | src-tauri/src/network/cache.rs:169-179 | pruning keeps exactly the five most recently used of those with at most 10 consecutive failures |
| AddressCache.RecentIsKept | src-tauri/src/network/cache.rs:169-179 | an address that has not failed too often is kept if fewer than five such were used at least as recently |
| AddressCache.PruneStableOnTies | src-tauri/src/network/cache.rs:169-179 | and among equally recent ones the earlier entries |
| AddressCache.PruneIdempotent | src-tauri/src/network/cache.rs:169-179 | pruning again changes nothing |
| AddressCache.JustAddedSurvivesExactly | src-tauri/src/network/cache.rs:150-179 | an address added to a list of any length survives the pruning if and only if it has not failed too often and fewer than five survivors are at least as recent |
| AddressCache.JustAddedAmongFive | src-tauri/src/network/cache.rs:150-179 | in a list of at most five: if and only if there is room or some survivor was used strictly earlier |
| PairedDevices.ApplyKeepsValidExactly | src-tauri/src/network/cache.rs:280-369 | one operation keeps device ids distinct and at most five addresses each, with distinct ip and port, if and only if it is not a new device with a known id, more than five addresses or a repeated one |
| PairedDevices.CacheInvariant | src-tauri/src/network/cache.rs:182-362 | over every history whose new devices have a new id and at most five distinct addresses without failures, that holds, and of every entry failures, successes and time of last use are those the history says |
| PairedDevices.ReconnectCharges | src-tauri/src/network/commands.rs:1526-1587 | one pass charges a failure to each address before the first that works, a success to that one, and nothing to any other entry |
| PairedDevices.WorkingAddressComesFirst | src-tauri/src/network/commands.rs:1526-1587 | and the next pass tries the address that worked first |
| PairedDevices.AttemptDates | src-tauri/src/network/cache.rs:182-203 | a recorded success sets last_connected and last_seen of its device to now, and nothing else sets them |
| PairedDevices.PassDates | src-tauri/src/network/commands.rs:1526-1587 | so a pass dates the device if and only if an address works, and no other device |
| PairedDevices.AllPrunedExactly | src-tauri/src/network/cache.rs:365-369 | pruning all devices of a valid cache keeps of each exactly the entries with at most 10 failures in a row, and everything else about it |
| AddingDevices.AddedAddressExactly | src-tauri/src/network/cache.rs:150-179 | a brought address that is there gets the time and keeps its counts; one that is not is there afterwards, without counts, if and only if fewer than five survivors are at least as recent; nothing else is altered |
| AddingDevices.MergedEntry | src-tauri/src/network/cache.rs:280-296 | a whole merge keeps at most five distinct addresses; a brought entry is fresh or keeps its counts, and any other is as it was |
| AddingDevices.BroughtAreThere | src-tauri/src/network/cache.rs:280-296 | if the merge is later than every use recorded, brings at most five addresses and none that has failed too often, all of them are there afterwards |
| AddingDevices.AddingStores | src-tauri/src/network/cache.rs:280-296 | after add_device the id is found: an unknown device stored as given, a known one with the new name and fingerprint and its addresses merged; every other device is unchanged |
| PairedCache.PairedDevicesCache.IndexOf | src-tauri/src/network/cache.rs:312-320 | the first device with the id |
| PairedCache.PairedDevicesCache.Update | src-tauri/src/network/cache.rs:323-362 | a change is applied to that device alone, and a missing one is reported |
| PairedCache.PairedDevicesCache.AddDevice | src-tauri/src/network/cache.rs:280-296 | an unknown device is appended as given; a known one is renamed and its addresses merged; nothing else changes (stated once as a function and once from the lists before and after) |
| PairedCache.PairedDevicesCache.RemoveDevice | src-tauri/src/network/cache.rs:299-309 | every entry with the id goes, and it is an error if there was none |
| PairedCache.PairedDevicesCache.PruneAllAddresses | src-tauri/src/network/cache.rs:365-369 | every device is pruned |
| PairedCache.PairedDevicesCache.Reconnect | src-tauri/src/network/commands.rs:1485-1617 | tries the addresses in priority order, records each outcome and stops at the first that works |
| StableSort.SortSorted | src-tauri/src/network/cache.rs:120-146 | the library sort orders by the comparator |
| StableSort.SortStable | src-tauri/src/network/cache.rs:120-146 | and keeps tied elements in order |
| StableSort.AddedAmongFirstExactly | src-tauri/src/network/cache.rs:174-178 | an element pushed before the sort is within the first n if and only if fewer than n others come before it or are tied with it |
| Navigation.NavigationProvider.NavigateToObject | src/contexts/NavigationContext.tsx:230-256 | pushes the current place, clears the forward stack, and closes a comparison of another object |
| Navigation.NavigationProvider.NavigateTo | src/contexts/NavigationContext.tsx:258-341 | the other five navigations push, clear forward and close any comparison |
| Navigation.NavigationProvider.NavigateBack | src/contexts/NavigationContext.tsx:343-351 | moves one place from history to current and the current one to forward |
| Navigation.NavigationProvider.NavigateForward | src/contexts/NavigationContext.tsx:353-361 | the reverse |
| Navigation.NavigationProvider.ChangePane | src/contexts/NavigationContext.tsx:364-391 | opening, closing and resizing the pane, and updating a comparison, leave both stacks alone |
| Navigation.NavigationProvider.SwapPanes | src/contexts/NavigationContext.tsx:393-414 | pushes history and keeps forward |
| Navigation.NavigationProvider.OpenVersionComparison | src/contexts/NavigationContext.tsx:416-446 | pushes history, keeps forward and opens the comparison |
| Navigation.NavigationProvider.ReturnToTimeMachine | src/contexts/NavigationContext.tsx:459-491 | closes the pane and pops back to Time Machine if it came from there |
| Navigation.StacksRefineTape | src/contexts/NavigationContext.tsx:216-491 | every action does one named edit to a tape with a cursor: back and forward only move it, a navigation truncates and appends, swap and comparison insert |
| Navigation.TapeDeterminesStacks | src/contexts/NavigationContext.tsx:169-178 | the tape and cursor are all there is to the three stacks |
| Navigation.BackThenForwardExactly | src/contexts/NavigationContext.tsx:343-361 | k backs then k forwards restore everything if and only if there were k places back or nothing ahead |
| Navigation.ComparisonAlwaysOpen | src/contexts/NavigationContext.tsx:364-491 | in every run a comparison has an open pane with object, frontier and time |
| Navigation.SameObjectKeptExactly | src/contexts/NavigationContext.tsx:364-370 | one action makes it show another object if and only if it is openInSplit of another object during the comparison |
| Navigation.ComparisonInvariant | src/contexts/NavigationContext.tsx:216-491 | so over every run without that it shows the primary pane's object |
| Navigation.StartIsComparisonFree | src/contexts/NavigationContext.tsx:169-211 | from the initial state in particular |
| Navigation.SwapExchangesExactly | src/contexts/NavigationContext.tsx:393-414 | a swap exchanges the two objects shown if and only if both panes have one or they are equal; without both it changes nothing; the rest of the pane stays |
| Navigation.TwoSwapsRestore | src/contexts/NavigationContext.tsx:393-414 | in every run two swaps restore the primary place and the whole pane |
| Navigation.PlacesAlwaysFit | src/contexts/NavigationContext.tsx:216-491 | in every run a place with an object is the plain view of that object and holds nothing else |
| Navigation.SplitShows | src/contexts/NavigationContext.tsx:364-382 | after openInSplit the pane is open and shows the object; after closing it is as at the start; nothing else changes |
| Navigation.GoesWhereAsked | src/contexts/NavigationContext.tsx:230-341 | a navigation goes to the view asked for with its one argument and no other, and one step back leads to where it came from |
| Navigation.MovingKeepsNormalPane | src/contexts/NavigationContext.tsx:216-361 | a navigation leaves a normal pane alone and closes a comparison, unless it goes to the compared object |
| Navigation.ComparisonShows | src/contexts/NavigationContext.tsx:416-491 | a comparison shows the object on both sides with frontier, time and context as given; an update changes only frontier and time; returning closes the pane and shows Time Machine |
| Navigation.WidthTaken | src/contexts/NavigationContext.tsx:384-391 | a width in the range is taken as it is, another is moved to the nearer end |
| Navigation.WidthInRange | src/contexts/NavigationContext.tsx:384-391 | the split width stays between 25 and 75 percent |
| CivilDates.YearFormulaCounts | src/components/history/HistoryWeekStrip.tsx:45-66 | the standard's formula for the first day of a year counts leap years right for every year |
| CivilDates.DayNumberOrder | src/components/history/HistoryWeekStrip.tsx:45-66 | day numbers keep calendar order both ways |
| CivilDates.SetDateRollsOver | src/components/history/HistoryWeekStrip.tsx:45-66 | setDate one day on follows the calendar across months, years and leap days |
| CivilDates.MonthsStart | src/components/history/HistoryWeekStrip.tsx:45-66 | the day of the year on which each month starts, in common and leap years |
| CivilDates.WeekDaysFollow | src/components/history/HistoryWeekStrip.tsx:45-54 | 1 January 1970 is a Thursday and weekdays follow one another |
| CivilDates.NewDateRolls | src/components/history/HistoryWeekStrip.tsx:36-40 | a Date made of any numbers: one day more is the next day, twelve months more the next year, and years 0 to 99 are the 1900s |
| DateKeys.ParseUndoesFormatExactly | src/components/history/HistoryWeekStrip.tsx:30-40 | parsing undoes formatting if and only if the year is at least 100 |
| DateKeys.KeyOrderExactly | src/components/history/HistoryWeekStrip.tsx:30-40 | the key of an earlier date sorts first if and only if the years are in step: the later year does not begin with digits below those of the earlier (the other way round before year 0); for all years |
| DateKeys.KeyOrder | src/components/history/HistoryWeekStrip.tsx:30-40 | so keys of years with equally many digits compare as the calendar does |
| DateKeys.FourDigitKeyOrder | src/components/history/HistoryWeekStrip.tsx:30-40 | for the years 1000 to 9999 string order of keys is calendar order |
| DateKeys.ShortYearsSortWrong | src/components/history/HistoryWeekStrip.tsx:30-34 | every date of the years 101 to 999 sorts after all of the year 1000 |
| DateKeys.WeekContainsDateOnce | src/components/history/HistoryWeekStrip.tsx:45-66 | the week start is a Monday and its own week start, and its seven days contain the date exactly once |
| DateKeys.SameWeekExactly | src/components/history/HistoryWeekStrip.tsx:45-54 | two dates share a week start exactly when they lie in the same Monday-to-Sunday week |
| DateKeys.MaxChangesInWeek | src/components/history/HistoryWeekStrip.tsx:164-174 | no visible day has more changes than the maximum, and some day has that many |
| DateKeys.FindDayWithChanges | src/components/history/HistoryWeekStrip.tsx:195-208 | the nearest changed day in the direction, in key order |
| DateKeys.DayMovesUndoEachOther | src/components/history/HistoryWeekStrip.tsx:195-208 | next and previous changed keys are each other's inverse |
| DateKeys.GoToDay | src/components/history/HistoryWeekStrip.tsx:236-246 | the move from the selected key, through its parsed date and that date's key, or from today |
| DateKeys.DayButtonsUndoEachOther | src/components/history/HistoryWeekStrip.tsx:236-246 | so from a changed day of the year 100 or later the one button and then the other lead back, through parsing and formatting |
| DateKeys.FindWeekWithChanges | src/components/history/HistoryWeekStrip.tsx:210-233 | the first changed day from the next Monday on, or the last before this Monday |
| DateKeys.WeekForwardSkipsNothing | src/components/history/HistoryWeekStrip.tsx:248-256 | no changed day lies between the displayed week and the day gone to |
| DateKeys.WeekBackwardSkipsNothing | src/components/history/HistoryWeekStrip.tsx:248-256 | the same backward |
| Timeline.InverseExactly | src/components/history/HorizontalTimeline.tsx:75-100 | the two index maps are inverse bijections if and only if no two changes share timestamp and peer |
| Timeline.LeftUndoesRight | src/components/history/HorizontalTimeline.tsx:141-158 | then left undoes right and right undoes left |
| Timeline.RightWalksInTimeOrder | src/components/history/HorizontalTimeline.tsx:141-158 | and right from Home walks every change in order of time |
| Timeline.HomeToEnd | src/components/history/HorizontalTimeline.tsx:141-166 | up to the change that End selects |
| Timeline.EndsHold | src/components/history/HorizontalTimeline.tsx:141-166 | at the first and the last change, Home, End and the arrows go no further |
| Timeline.PositionsSpread | src/components/history/HorizontalTimeline.tsx:103-138 | the first marker is at 0, the last at 100 and the others in proportion to time between them; all at 50 if there is only one time |
| Timeline.PositionsMonotone | src/components/history/HorizontalTimeline.tsx:103-138 | marker positions lie in 0 to 100 and never fall |
| Timeline.HandleTrackClick | src/components/history/HorizontalTimeline.tsx:175-198 | a click selects a nearest marker, the first on a tie |
| Frontiers.CumulativeFrontier | src/components/history/TimeMachine.tsx:113-144 | exactly one entry per peer with a change at or before the moment, holding its largest counter |
| Frontiers.OrderIndependent | src/components/history/TimeMachine.tsx:113-144 | whatever the order of the change points |
| Frontiers.GrowsWithTime | src/components/history/TimeMachine.tsx:113-144 | as the moment moves on no peer leaves and no counter falls |
| BlockGroups.KindsExactly | src/components/history/ContentPreview.tsx:130-240 | which types are rendered and which are list items, each kind of list for one type |
| BlockGroups.GroupBlocks | src/components/history/ContentPreview.tsx:244-297 | flattened, the result is the known blocks in order; lists are non-empty, of one kind, without gaps, keyed by position, and adjacent lists of one kind have a dropped block between them |
| BlockGroups.GroupingUnique | src/components/history/ContentPreview.tsx:244-297 | no other result satisfies that |
| BlockGroups.KeysDistinct | src/components/history/ContentPreview.tsx:244-297 | siblings never share a key |
| DeviceKey.Stronghold.GetOrCreateDeviceKey | src-tauri/src/crypto/stronghold.rs:151-195 | migration, then the salt if there is one, then the keychain, then a new salt |
| DeviceKey.Stronghold.GetKeyFromKeychain | src-tauri/src/crypto/stronghold.rs:198-255 | reads, creates or fails, and takes another thread's entry when its own cannot be stored |
| DeviceKey.Stronghold.GetOrCreateFallbackKey | src-tauri/src/crypto/stronghold.rs:258-306 | reads or writes the salt, sets the marker if it can, and derives the key from the salt |
| DeviceKey.Stronghold.StoreMasterKey | src-tauri/src/crypto/stronghold.rs:63-74 | the file holds the master key under the device key |
| DeviceKey.Stronghold.GetMasterKey | src-tauri/src/crypto/stronghold.rs:77-94 | readable under the same device key only |
| DeviceKey.LaunchGivesExactly | src-tauri/src/crypto/stronghold.rs:151-255 | a launch gives a keychain key if and only if no salt is left and the keychain holds it, takes it as new, or shows it raced; then no salt is written and the entry holds it; and when it gives which salt key |
| DeviceKey.LaunchFailsExactly | src-tauri/src/crypto/stronghold.rs:151-306 | whatever files fail, a launch fails if and only if the salt left is unreadable or of wrong length, or there is none, no keychain key and none can be written |
| DeviceKey.MigrationDiscardsExactly | src-tauri/src/crypto/stronghold.rs:151-174 | only a migration discards the master file, and never keeps the old salt's key |
| DeviceKey.NewDeviceKeepsKeychainKey | src-tauri/src/crypto/stronghold.rs:151-255 | a new device whose keychain has a key to give and stays in reach gives that key at every launch and never writes a salt |
| DeviceKey.MigratesOnlyFirst | src-tauri/src/crypto/stronghold.rs:151-174 | with working files no launch but the first migrates |
| DeviceKey.KeyKeptExactly | src-tauri/src/crypto/stronghold.rs:151-195 | a later launch gives the same key if and only if it is a salt key or the keychain was in reach at every launch since; otherwise it gives a salt key |
| DeviceKey.KeyChangesAtMostOnce | src-tauri/src/crypto/stronghold.rs:151-195 | the key changes at most once in any run |
| DeviceKey.ReadableExactly | src-tauri/src/crypto/stronghold.rs:63-94 | a stored master key can be read at a later launch under exactly that condition |
| DeviceKey.MarkerMattersExactly | src-tauri/src/crypto/stronghold.rs:289-292 | after a launch on a salt key the master key survives the next one if and only if the marker was there or could be written |
| Base64.DecodeEncode | src-tauri/src/network/pairing.rs:69-73 | decoding undoes encoding for every byte string |
| Base64.EncodeDecode | src-tauri/src/network/pairing.rs:96-99 | only the encoding of a byte string decodes to it |
| Base64.AlphabetExactly | src-tauri/src/network/pairing.rs:69-73 | the alphabet of RFC 4648, table 2 |
| Base64.GroupsOfThree | src-tauri/src/network/pairing.rs:69-73 | three bytes are four characters, high bits first |
| Base64.LeftOver | src-tauri/src/network/pairing.rs:69-73 | one or two bytes left over are two or three characters, without padding |
| Base64.TestVectors | src-tauri/src/network/pairing.rs:69-73 | the first test vectors of section 10 of RFC 4648 |
| Base64.EncodeInAlphabet | src-tauri/src/network/pairing.rs:69-73 | no character that could disturb a query string is emitted |
| PairingCodec.RoundTripExactly | src-tauri/src/network/pairing.rs:69-115 | from_url undoes to_url if and only if the payload is of version 1 |
| PairingCodec.AcceptedExactly | src-tauri/src/network/pairing.rs:76-115 | which URLs are read as a given payload |
| PairingCodec.RefusedExactly | src-tauri/src/network/pairing.rs:76-115 | and with which error each other one is refused |
| PairingCodec.DisplayShape | src-tauri/src/network/commands.rs:961-968 | the shown code is the fingerprint, each small letter replaced by its capital, with a dash after every four characters |
| PairingCodec.CleanUndoesFormatExactly | src-tauri/src/network/commands.rs:1020 | typing the shown code gives the fingerprint back if and only if it has no dash, space or upper-case letter |

## Left out

- Relay: row timestamps, which nothing reads; SQLite errors and the end of the 63-bit key space;
  transactions are atomic.
- Relay: SNAPSHOT_REQUEST, PING and PONG, the device registry, device updates and renames, which
  touch neither the log nor the revocations; the HTTP endpoints and the Cloudflare worker.
- Relay: sends that throw. A failing send inside a revocation would end in an error reply after the
  revocation was stored.
- Relay: two user ids that sanitise to the same file name share a file; the model has a file per id.
- RelayServer: rooms are values in the server's map, so that a message reaches a room object
  through its socket's closure is modelled by the set of attached sockets, not by aliasing.
- RelayWire: bytes before and after the payload in the same buffer, which a DataView without an
  explicit length can read; the size of a message is taken to be below 4 GiB.
- JSON: what a header looks like as text. The codecs are parameters of the lemmas.
- SyncClient: the offline queue, encryption itself, status events and the reconnection timer.
- LanFraming: the handshakes, which drop left-over bytes, timeouts, heartbeats and mDNS; the read
  error, which ends the loop like an end of stream; the lock on the write half; the maps of peers.
- Blocklist: a write of the file is one step; read errors and malformed files; the list without a
  file, which saves nothing.
- PairedDevices: other changes to the cache while a reconnect pass waits for a connection; saving
  the cache; overflow of the 32-bit counters; one clock reading per operation.
- AddressCache: the success rate is a real number, which never meets rounding since it never
  decides.
- Navigation: React's timing (a callback is one step on committed state), analytics, editor focus.
- DateKeys: time zones and daylight saving; labels, bar widths and "today".
- NumberOf: reads strings of digits; `Number` also reads signs, fractions, exponents and blanks,
  which no date key contains.
- Timeline: the size of markers; how a mouse position becomes a percentage.
- Frontiers: the objects read at the frontier. Restoring uses the single change's frontier, not this
  one, and no agreement is claimed.
- BlockGroups: the markup inside a rendered block, and children, which are rendered without grouping
  and only below bullet and numbered items.
- DeviceKey: that two keys from different origins differ, that decryption under another key fails,
  and that random bytes are fresh are taken for granted; clearing all secrets is not modelled.
- PairingCodec: upper and lower case of letters outside ASCII; the QR image; the list of addresses.
- Import and export, search, recurrence, themes, the Loro document itself: not part of this model.
