# A verified model of the CoDExtended server core

This project models, in Dafny, the parts of the CoDExtended server extension whose whole logic is
in its C sources and whose correctness is not visible from any one function: the rate limiter for
connectionless queries, the file download window, info strings, message pacing, reliable client
commands, the challenge table, and four smaller pieces (`va`, `str_replace`, the localized-string
table, and the vector and angle algebra). `dafny verify dfyconfig.toml` checks all of it.

Code that changes state in place is modelled the same way: classes with the source's fields, arrays,
and the source's loops. Each such method is proved equal to a function on values, and the theorems are
about those functions over whole runs.

## The parts

**Rate limiter** (`LeakyBucket`, `BucketModel`, `BucketTable`, `RateLimitRuns`, `QueryGuard`).
`BucketModel` holds the arena, the heads and the chains as values, with links as arena indices, and
proves that unlinking and inserting keep the chains finite, doubly linked and complete, addresses
unique, and free buckets all zero. `BucketTable` is the arena of linked objects, proved to do exactly
that. Over runs from program start, `RateBound` bounds what any address gets through in any window
of time, across creation, reclaim and a full table; `RefusalHasCause` is its converse: nobody is
refused unless the allowance is spent, or the arena is full of buckets that were used within the last
`burst` periods or were stamped at clock zero. Buckets of the second kind are never reclaimed, however
long they idle (`NeverReclaimed`). `QueryGuard` is the pair of gates in front of the status, info,
challenge and remote-command queries; it bounds what they let out for each address and in all, and
says exactly which queries are answered.

The argument follows one quantity, `burst * period + lastTime`. Draining a bucket conserves it,
forgetting an expired bucket raises it to the present, an admission raises it by exactly one period,
and no admission leaves it more than `burst` periods ahead of the clock. A bucket is reclaimed only
when the quantity is behind the clock, so reclaiming loses nothing.

**File download** (`Download`, `DownloadProtocol`, `DownloadProgress`, `StaleBlocks`). The sending side is the
eight-slot ring with its three counters, the end marker and the go-back timer. The protocol adds a
network that loses, duplicates and reorders block messages, an honest client that accepts only the
block it expects, and the sequence-numbered command channel that carries acknowledgements back.
`TransferSafety` says that the client always holds a prefix of the file, and the whole file when it is
done unless a read failed. Late acknowledgements may overtake the go-back, and then a message
carries another block's bytes: `WriteOk` says exactly which block every message carries and when it is
its own, `MislabelledBlockIsSent` (in `StaleBlocks`) is a run in which it is not, and the proof shows
that the client ignores such messages. `AcknowledgeOk` says exactly which acknowledgement pushes the
window past its end. `AlwaysResent` bounds the go-back, `GoesBackIff` says exactly
when it happens, and `NoDeadEnd` says that a transfer which has
not been dropped can always be completed.

**Info strings** (`InfoString`, `InfoParse`, `InfoBuffer`). The two tokenisers and the two comparisons are proved to
read the same list of pairs. The reference is a list of pairs, or one key so long that it jams the
string, with outcomes decided by sizes alone: in every run, for all keys and values, the string spells
what the reference holds (`RunIsSpecRun`), and looking up a key gives what was last recorded for it
(`RunIsDictionary`). `ReadBack` says for every key and value when a set can be read back, and
`ReachesLimitIff` when the length test lets the string grow to a length for which the usual buffer has
no terminator byte. `InfoParse` covers strings of any shape, with repeated keys, a dangling key, or no
leading separator: what a lookup and a removal do to every one of them.

**Pacing, commands, challenges** (`Pacing`, `ClientCommands`, `Challenges`). The bandwidth bound of the
message scheduler, and exactly which frames send (`SendsIff`); exactly-once, in-order processing of
reliable commands; no two open challenges for one address, and a handshake that closes the one it
matches.

**Buffers, tables, vectors** (`VaBuffer`, `StrReplace`, `StringTable`, `Rotation`, `Angles`). How long a
`va` string lives, with an exact bound; replace-all as splitting at the leftmost
occurrences, in the one way there is; interning with permanent and evictable slots, and when the
entries are distinct; rotation about an axis as a rigid motion
equal to Rodrigues' formula; and the agreement of the two angle reductions.

## Assumptions

- The clock is a parameter of every operation that reads it. In runs it starts non-negative, never
  goes back and does not wrap. The two readings made while serving one request may differ.
- All calls on the bucket table use one burst and one period, as its callers do (10 and 1000), with
  1 <= burst <= 127, the range of the signed char.
- No packet comes from address type zero, the type of bots (`src/server.h:81`), which is also the mark of a
  free bucket; addresses of received packets are `NA_IP` (`src/unix_net.c:38`).
- Integers are unbounded except where a conversion or a width is written out: the signed char of the
  bucket, the signed and unsigned bytes of the comparisons, truncating division and remainder.
- `FS_Read` returns bytes at the current offset, no more than asked for and no more than are left;
  while bytes remain it returns something positive or an error.
- `SV_GetConfigstring` copies at most one character less than the size it is given, and
  `SV_SetConfigstring` keeps the whole string.
- `toupper` folds the letters a to z only (the C locale), `Com_sprintf` truncates to its buffer, and setting
  a cvar takes effect at once.
- Vectors and angles are real numbers. Square roots are real square roots, and sine and cosine enter by
  `c * c + s * s == 1` only. `CrossProduct`, whose body is not in the repository, is the cross product.

Where names or comments and code disagree, the model follows the code: `_ProjectPointOnPlane` projects
only for a unit normal (`ProjectsIff`), the info length test admits one character too many for its
buffer (`LimitIsReached`), and a set that fails on length has already removed the old value (`ReadBack`).

## Model

| member | source | states |
|---|---|---|
| LeakyBuckets.RateLimit | src/sv_main.c:693-715 | The in-place limiter equals drain-then-charge on the bucket's level, touches nothing else of the bucket, and always limits a null bucket. |
| LeakyBuckets.DecayPotential | src/sv_main.c:696-706 | Draining conserves `burst * period + lastTime`; a reset happens exactly when more periods have passed than the bucket holds, and raises it to the present. The drained bucket is less than a period behind. |
| LeakyBuckets.AdmitPotential | src/sv_main.c:693-715 | An admission adds exactly one period and never exceeds `burst` periods past now; a refusal means that the drained bucket is full, and the level stays within 0..burst. |
| LeakyBuckets.ClockWentBack | src/sv_main.c:700-702 | If the clock has gone back, the bucket is emptied and the request let through, whatever the level. |
| LeakyBuckets.WindowInvariant | src/sv_main.c:693-715 | Over any run, the admissions of a window are paid for by the rise of that quantity since the window opened. |
| LeakyBuckets.WindowBound | src/sv_main.c:693-715 | Any window [s, e] of any run admits fewer than burst + 1 + (e - s) / period requests, from any legal starting level. |
| BucketTables.HashForAddress | src/sv_main.c:619-633 | The loop and the shifts compute the hash that the chains are indexed by. |
| BucketModel.HashIs | src/sv_main.c:619-633 | The hash is the exclusive or of the quotient and the remainder by 1024 of the bytes weighted 119 to 122; the second shift and the mask contribute nothing more. |
| BucketModel.UnlinkWellFormed | src/sv_main.c:655-665 | Unlinking a bucket and zeroing it keeps every chain finite, repetition-free and doubly linked from its head, every bucket in use on the chain of its address, every free bucket all zero, and addresses unique. |
| BucketModel.UnlinkKeepsOthers | src/sv_main.c:655-665 | Reclaiming leaves the data of all other buckets alone. |
| BucketModel.InsertWellFormed | src/sv_main.c:669-683 | Claiming a free bucket for an address that has none keeps all of that. |
| BucketModel.InsertKeepsOthers | src/sv_main.c:669-683 | The claimed bucket holds the address, the time and a zero level; the data of the others is unchanged. |
| BucketModel.FindIsUnique | src/sv_main.c:641-645 | No two buckets in use hold the same address. |
| BucketModel.FindIsOnChain | src/sv_main.c:641-645 | The bucket of an address is on the chain of its hash, so the chain search is complete. |
| BucketModel.AvailableIff | src/sv_main.c:651-668 | A slot can be had if and only if it is free, or not stamped at clock zero and the clock is outside the `burst` periods after its stamp, on either side. |
| BucketModel.AllocateFromMeaning | src/sv_main.c:647-690 | The scan stops at the first slot that is free or expired, reclaims no other, and gives up only when there is none. |
| BucketModel.BucketForMeaning | src/sv_main.c:635-691 | An address that has a bucket gets it and nothing changes. Null is returned if and only if the address has none and every bucket is in use and unexpired. A granted bucket is fresh and other addresses' buckets keep their data. |
| BucketTables.BucketTable.constructor | src/server.h:562-565 | The static arena starts all zero, with empty chains. |
| BucketTables.BucketTable.Search | src/sv_main.c:641-645 | Walking `next` from the chain head ends, and finds exactly the bucket of the address, or null. |
| BucketTables.BucketTable.Release | src/sv_main.c:655-665 | The pointer surgery of the reclaim branch is exactly unlinking in the model. |
| BucketTables.BucketTable.Claim | src/sv_main.c:668-685 | The pointer surgery of the claim branch is exactly insertion in the model. |
| BucketTables.BucketTable.ScanSlot | src/sv_main.c:648-686 | One turn of the scan reclaims the slot exactly if it is expired, and claims it exactly if it is then free. |
| BucketTables.BucketTable.BucketForAddress | src/sv_main.c:635-691 | The search and the scan together compute the bucket and the table that `BucketForMeaning` describes. |
| BucketTables.BucketTable.RateLimitAddress | src/sv_main.c:717-738 | One call of the address limiter on the linked heap is one step of the value model, verdict included. |
| RateLimitRuns.ServeStep | src/sv_main.c:717-738 | No request lowers what any address owes, even by reclaiming its bucket; an admission raises what its own address owes by one period. |
| RateLimitRuns.RunInvariant | src/sv_main.c:635-738 | In every run, levels stay in range and what an address owes has risen one period per admission since the window opened. |
| RateLimitRuns.RateBound | src/sv_main.c:635-738 | For every run, address and window [s, e], N admitted requests satisfy N * period < (burst + 1) * period + (e - s), whatever other addresses do. |
| RateLimitRuns.OwnStep | src/sv_main.c:635-738 | A request's own bucket continues from where it was or restarts empty, is charged one period exactly on admission, and is full when it refuses. |
| RateLimitRuns.Accounted | src/sv_main.c:635-738 | In every run each bucket was empty at some request of its address, and has been charged since for that address's admissions and for nothing else. |
| RateLimitRuns.UnexpiredIffHeld | src/sv_main.c:653-654 | In every run the buckets in use that the scan passes over are exactly those used within `burst` periods or stamped at clock zero. |
| RateLimitRuns.NeverReclaimed | src/sv_main.c:653-666 | The bucket of an address whose one request came at clock zero outlasts every run of other addresses. |
| RateLimitRuns.RefusalHasCause | src/sv_main.c:635-738 | A refusal in any run means either that the address had no bucket and all 16384 are others', each used within `burst` periods or stamped at clock zero, or that since some request of its own the address was admitted at least `burst` times and at most one admission short of the upper bound. |
| QueryGuards.QueryGuard.Check | src/sv_main.c:469-482 | The guard shared by the queries: address limiter first, then the outbound bucket, or for a wrong password the bucket of remote commands; an early refusal leaves the later bucket alone. |
| QueryGuards.PassMeaning | src/sv_main.c:265-275 | A shared bucket is charged exactly by the queries of its kind that pass the address limiter, and they are answered exactly if it admits them. |
| QueryGuards.SharedBucket | src/sv_main.c:196-206 | Over runs, the answers of a kind are exactly what one bucket charged at those times admits. |
| QueryGuards.AnsweredIff | src/sv_main.c:469-482 | A query is answered if and only if the limiter of its address admits it and it brings the right password or the shared bucket of its kind has room; a bucket that is not consulted keeps its level. |
| QueryGuards.UnansweredHasCause | src/sv_main.c:469-482 | In every run a query goes unanswered only for the causes of `RefusalHasCause`, or because it lacks the right password and the shared bucket of its kind is full. |
| QueryGuards.AnswersToAddress | src/sv_main.c:196-206 | In every run, answers to one address in a window of d ms number less than 11 + d / 1000: no amplification. |
| QueryGuards.AnswersInAll | src/sv_main.c:196-206 | In every run, public answers in all number less than 11 + d / 100, and answers to wrong passwords less than 11 + d / 1000. |
| Downloads.ClientDownload.OpenDownload | src/sv_client.c:1192-1232 | A download is opened exactly if it is allowed, no game pak, and of a non-empty file, with counters at zero for the whole file; each refusal is given exactly for its cause, the earlier check winning. |
| Downloads.ClientDownload.FillWindow | src/sv_client.c:1234-1259 | The read loop computes the ring and the counters of the value model, also when a read fails. |
| Downloads.ClientDownload.AddEndMarker | src/sv_client.c:1261-1267 | The end marker is added once, after the last block, when there is room. |
| Downloads.ClientDownload.TransmitBlock | src/sv_client.c:1269-1302 | Which block is sent, or why none is, and what the message carries. |
| Downloads.ClientDownload.WriteDownloadToClient | src/sv_client.c:1178-1303 | One whole call: client state, rate and interval, refusal or sending, with the ring invariant kept. |
| Downloads.ClientDownload.NextDownload | src/sv_client.c:523-557 | The intended acknowledgement: it advances, completes or breaks the download, and keeps the invariant if and only if it does not acknowledge an unread block whose slot holds an older one. |
| Downloads.StartOk | src/sv_client.c:1224-1228 | A freshly opened download satisfies the ring invariant. |
| Downloads.ReadBlockOk | src/sv_client.c:1236-1258 | Reading one block of either size keeps the last eight blocks in their slots and keeps the blocks a spelling of the file so far. |
| Downloads.FillOk | src/sv_client.c:1234-1259 | Filling stops with the window full or the file read, and a failed read leaves a slot that only the end marker can use. |
| Downloads.MarkEofOk | src/sv_client.c:1261-1267 | The one empty block is the last. |
| Downloads.SettleOk | src/sv_client.c:1234-1270 | After filling and marking there is always something unacknowledged to transmit. |
| Downloads.WriteOk | src/sv_client.c:1234-1302 | The invariant (window of at most eight, slot k % 8 holds block k for the last eight blocks read, blocks spell the bytes read) is kept; "nothing to transmit" is never taken; waiting means all sent and timer running; every message carries the newest block of its slot, which is its own if and only if at most seven blocks have been read after it. |
| Downloads.AcknowledgeOk | src/sv_client.c:535-555 | An acknowledgement of another block is the only way to break a download, completion is reported exactly for the empty block, and the invariant survives if and only if the acknowledgement does not overtake the reading. |
| DownloadProtocol.CommandInv | src/sv_client.c:1011-1024 | A command packet in sequence acknowledges the oldest block: an honest client is dropped only for a gap in its commands. |
| DownloadProtocol.StepInv | src/sv_client.c:1178-1303 | Every frame, delivery, command and command packet keeps the protocol invariant, stale and mislabelled messages included. |
| DownloadProtocol.InvMeansSafe | src/sv_client.c:1178-1303 | The invariant implies that the client holds a prefix, and all of the file when done unless a read failed where its copy ends. |
| DownloadProtocol.TransferSafety | src/sv_client.c:1178-1303 | For every run under loss, duplication and reordering, with the block size changing at will: accepted bytes are a prefix of the file, and complete at the end unless a read failed. |
| DownloadProgress.OldestResent | src/sv_client.c:1272-1301 | While nothing is acknowledged, any nine transmissions include the oldest unacknowledged block. |
| DownloadProgress.SpacedFramesSend | src/sv_client.c:1272-1279 | Frames more than the retransmission time apart always transmit. |
| DownloadProgress.AlwaysResent | src/sv_client.c:1234-1302 | From every reachable state, nine transmissions, or nine frames spaced beyond the timer, repeat the oldest block. |
| DownloadProgress.AcknowledgementRestartsTimer | src/sv_client.c:548-549 | When everything read has been sent, exactly the frames within 1000 ms of an accepted acknowledgement wait, and any later one sends the oldest block again. |
| DownloadProgress.GoesBackIff | src/sv_client.c:1272-1301 | In every run a frame that finds everything sent goes back if and only if both the latest transmission and the latest accepted acknowledgement are longer ago than that; one that finds something unsent sends it at once. |
| DownloadProgress.Pump | src/sv_client.c:1272-1301 | From every reachable state the server can put the block the client is waiting for on the wire. |
| DownloadProgress.NoDeadEnd | src/sv_client.c:1178-1303 | From every reachable state of a running transfer some continuation ends it, with the whole file accepted or everything up to a failing read. |
| StaleBlocks.GoBackTooLate | src/sv_client.c:1272-1301 | From any start, a run of an honest client in which block 0 is sent again before eight acknowledgements arrive. |
| StaleBlocks.MislabelledBlockIsSent | src/sv_client.c:1281-1302 | That run goes on with a message numbered 1 that carries block 9, and the client ignores it. |
| StaleBlocks.OvertakingBreaksTheWindow | src/sv_client.c:535-551 | In the same state one more acknowledgement is accepted and puts the client block past the last block read. |
| InfoBuffers.Stricmp | src/shared.c:269-287 | Zero exactly for strings equal up to case; otherwise the difference of the first different characters, folded, as unsigned bytes. |
| InfoBuffers.QStricmpn | src/shared.c:534-559 | Zero exactly when the first n characters are equal up to case, although it folds only differing signed characters; otherwise the order of the first different ones as signed bytes. |
| InfoBuffers.QStricmp | src/shared.c:580-582 | Agrees with `stricmp` on all strings up to its built-in limit; a null argument equals nothing. |
| InfoBuffers.OrdersAgree | src/shared.c:278-279 | On characters below 128 the two comparisons order alike. |
| InfoBuffers.InfoReader.ValueForKey | src/shared.c:375-426 | Returns what the lookup function says, alternates the two static buffers so that the previous answer survives, and is fatal exactly on oversize strings. |
| InfoBuffers.RemoveKey | src/shared.c:433-487 | The buffer ends up holding the string with the first matching pair cut out, in place, and nothing beyond the old terminator is written. |
| InfoBuffers.MoveTail | src/shared.c:475-480 | The overlapping move keeps the text before and after the removed pair. |
| InfoBuffers.SetValueForKey | src/shared.c:496-532 | The buffer ends up holding the value-level result, with the outcome of the first check that applies; if the result fills a buffer of the limit's size, exactly the terminator is lost. |
| InfoStrings.LookupEncoded | src/shared.c:391-425 | The lookup tokeniser reads back exactly the pairs that the string spells. |
| InfoStrings.RemoveEncoded | src/shared.c:448-485 | The separately written removing tokeniser reads the same pairs and cuts out the one that matches. |
| InfoParsing.SpellsEvery | src/shared.c:391-425 | Every string is a list of pairs and a dangling key, if any, once its leading separator is put back. |
| InfoParsing.LookupEvery | src/shared.c:375-426 | In every string, a lookup returns the value of the first pair with that key. |
| InfoParsing.RemoveEvery | src/shared.c:433-487 | In every string, a removal takes out the first pair with that key and nothing else; a missing leading separator stays missing unless the first pair goes. |
| InfoStrings.OutcomeIsSpecOutcome | src/shared.c:499-529 | Which of the five outcomes a set has is decided by the sizes of the pairs, for every key and value. |
| InfoStrings.RejectedIff | src/shared.c:504-517 | A set on a string below the limit is rejected if and only if its key or value holds a backslash, a semicolon or a quotation mark. |
| InfoStrings.EmptyDeletes | src/shared.c:519-522 | An empty value deletes the key and leaves every other. |
| InfoStrings.RunIsHarmless | src/shared.c:509-517 | No run of sets brings a semicolon or a quotation mark into the string. |
| InfoStrings.SetIsSpecSet | src/shared.c:496-532 | Setting any key to any value acts on the string as it acts on the reference content, and keys stay distinct ignoring case. |
| InfoStrings.SetThenLookup | src/shared.c:496-532 | After any set, every key looks up to its old value, the new value as far as it fits, or nothing, according to the outcome. |
| InfoStrings.ReadBack | src/shared.c:519-531 | For every key and non-empty value free of separators, what was set reads back if and only if the pair fits the formatting buffer and what is left of the string; a set that is too long has lost the old value. |
| InfoStrings.OverlongKeyIsLost | src/shared.c:524-531 | A key that fills the formatting buffer never reads back, and is stored if and only if nothing else is left. |
| InfoStrings.OverlongKeyJams | src/shared.c:524-531 | Once stored, it makes every key look up to nothing and turns away every later set. |
| InfoStrings.ReachesLimitIff | src/shared.c:519-531 | The result never exceeds the limit, and reaches it (one byte too long for a buffer of that size) exactly when a stored pair fills what is left. |
| InfoStrings.LimitIsReached | src/shared.c:499-531 | A concrete family in which it does, after which every further set of any key is turned away as oversize. |
| InfoStrings.RunIsSpecRun | src/shared.c:496-532 | In every run of sets the string spells the reference content, within the limit. |
| InfoStrings.RunIsDictionary | src/shared.c:375-532 | In every run, for all keys and values, looking up a key gives the last value recorded for it, or nothing if that was deleted or did not fit. |
| Pacing.Server.RateMsec | src/sv_client.c:1307-1330 | The wait equals charged bytes over effective rate, never dividing by less than 1000; a too small server limit is raised on the cvar itself. |
| Pacing.Server.UserinfoChanged | src/sv_client.c:932-958 | Rate ends in 1000..90000 and the snapshot interval in 33..1000 as the exact truncated quotient, with the defaults for missing settings. |
| Pacing.Server.SendMessageToClient | src/sv_client.c:1332-1375 | The due time, the delay flag and the local bypass, for one client, all others unchanged. |
| Pacing.Server.TakeTurn | src/sv_client.c:1397-1418 | A due client is sent its fast-download snapshots, as many as the frame rate asks for, its next fragment, or one snapshot, and is next due accordingly. |
| Pacing.Server.SendClientMessages | src/sv_client.c:1377-1419 | Every client is advanced by exactly one frame, although raising the server limit on the way changes what later clients read. |
| Pacing.CostFitsWait | src/sv_client.c:1307-1330 | A message never costs more than effective rate times the wait plus one millisecond. |
| Pacing.WaitIsExact | src/sv_client.c:1312-1325 | The wait is the cost of at most 1500 bytes and 48 more over the effective rate, rounded down. |
| Pacing.EffectiveRateIs | src/sv_client.c:1315-1323 | The effective rate is the client's own unless the server's is lower, and then the server's, but never below 1000. |
| Pacing.SendsIff | src/sv_client.c:1356-1418 | In every run a frame sends to a remote client if and only if it is in use and, since the last send, the bytes are paid for and, after a whole message, the snapshot interval has passed, and a second if it was neither active nor downloading. |
| Pacing.SendsAreSpaced | src/sv_client.c:1357-1373 | So consecutive messages are at least the snapshot interval apart, and a second while the client is neither active nor downloading. |
| Pacing.RateDelayedIff | src/sv_client.c:1357-1365 | A message is flagged as delayed if and only if it costs no less than the interval provides. |
| Pacing.LocalIsAlwaysDue | src/sv_client.c:1349-1354 | Local clients and fast downloads are due in every frame; a fast download is sent 9 snapshots at 20 frames a second, and 8 more for every further 20. |
| Pacing.BandwidthBound | src/sv_client.c:1356-1418 | Over any run of frames, with state and interval changing at will, the messages and fragments before the last fit in the effective rate over the elapsed time, but for one millisecond each. |
| ClientCommands.Client.ClientCommand | src/sv_client.c:1001-1084 | Repeats are ignored, a gap drops the client without processing, and the next in sequence is processed and recorded. |
| ClientCommands.ExactlyOnceInOrder | src/sv_client.c:1011-1083 | Whatever arrives, the processed commands are numbered consecutively without repeat, each was sent, and the counter is the last of them. |
| ClientCommands.ReceivedUpToCounter | src/sv_client.c:1014-1024 | While the client is not dropped, the numbers received beyond the first are exactly those up to the counter. |
| ClientCommands.DroppedIffGap | src/sv_client.c:1019-1024 | A client is dropped if and only if some packet arrived before a command that precedes it. |
| ClientCommands.SameCommands | src/sv_client.c:1011-1083 | Two undropped deliveries of the same packets, in any order and multiplicity, process the same commands. |
| Challenges.CompareAdrIsSymmetric | src/net_chan.c:100-125 | Address comparison does not depend on the order of its arguments. |
| Challenges.CompareAdrMeaning | src/net_chan.c:100-125 | It is transitive, reflexive for exactly three types, and tells packet senders apart by every byte and the port. |
| Challenges.ChallengeTable.GetChallenge | src/sv_client.c:792-861 | A dropped request leaves the table alone; an answered one makes the granted change and sends that entry's number. The guard takes exactly its one step. |
| Challenges.ChallengeTable.Reserve | src/sv_client.c:804-834 | The scan finds the sender's open entry, or else the first oldest one and rewrites it field by field. |
| Challenges.ChallengeTable.DirectConnect | src/sv_client.c:610-776 | The scan and the field writes are the connection step; it is refused exactly if no entry has the sender's address and number. |
| Challenges.OldestIsOldest | src/sv_client.c:812-820 | The scan's candidate is the first entry with the smallest time. |
| Challenges.ConnectMeaning | src/sv_client.c:610-776 | The first entry with the sender's address and number is connected, its ping cleared for a client that gets a slot and settled otherwise; no other entry changes. |
| Challenges.ConnectCloses | src/sv_client.c:610-697 | Afterwards an entry is open for the sender if and only if one was and it is not the one matched. |
| Challenges.GrantMeaning | src/sv_client.c:804-856 | A served request ends with an unconnected entry of its sender, changes no other entry, reuses an open entry if there is one, otherwise writes a wholly fresh one over the first of smallest time, and keeps open entries distinct by address. |
| Challenges.NeverDuplicates | src/sv_client.c:804-856 | In every run of requests and connections no address has two open entries. |
| Challenges.HandshakeCloses | src/sv_client.c:697 | After any run, a connection that matches the sender's open entry leaves none open for it, and its next request gets a new number in an oldest entry. |
| Challenges.AskingAgain | src/sv_client.c:812-814 | Without a connection in between, the next request gets the same entry and number. |
| VaBuffers.VaBuffer.Va | src/shared.c:647-661 | Every write to the circular buffer stays inside it, and the result is the string with its terminator; a string is refused exactly when it does not fit the buffer with its terminator. |
| VaBuffers.Lifetime | src/shared.c:647-660 | A string of n bytes, terminator included, is unchanged while later calls write S bytes with n + 2 * S <= 32000. |
| VaBuffers.LifetimeIsTight | src/shared.c:651-658 | One byte more, and a later string can overwrite it: the bound is exact. |
| StrReplace.StrStr | src/util.c:35-43 | The first occurrence at or after a position. |
| StrReplace.FindIsLeftmost | src/util.c:56 | No occurrence precedes the one found. |
| StrReplace.CountOccurrences | src/util.c:41-43 | The counting pass counts the occurrences that the filling pass will find, although it starts at the first of them. |
| StrReplace.Replace | src/util.c:22-64 | Null exactly when there is nothing to replace; otherwise a fresh buffer, filled exactly, that holds the replaced text and its terminator. |
| StrReplace.Fill | src/util.c:55-62 | Repeated copying through a moving pointer spells the replaced text. |
| StrReplace.PiecesSpell | src/util.c:55-62 | Joined by the searched text, the pieces are the original: nothing else is dropped. |
| StrReplace.PiecesAreClean | src/util.c:55-62 | No piece contains the searched text. |
| StrReplace.PiecesAreLeftmost | src/util.c:55-62 | Nor does the searched text begin inside a piece and run into the occurrence after it: every break is at the leftmost occurrence. |
| StrReplace.PiecesAreUnique | src/util.c:55-62 | Only one list of pieces spells the text and breaks at the leftmost occurrences, so those two properties determine what is replaced. |
| StrReplace.Identity | src/util.c:22-64 | Replacing a text by itself, or one that does not occur, is the identity. |
| StrReplace.ReplacedLength | src/util.c:50 | The allocated size is exact, also when the text shrinks. |
| StringTables.StringTable.LocalizedStringIndex | src/script.c:963-992 | The scan, the write and the counter are one step of the value model, with 0 for a null or empty string. |
| StringTables.InternMeaning | src/script.c:975-991 | For any string: nothing is written exactly if some slot's copy equals it; otherwise it goes to the first empty slot or, if all are taken, to the one in the upper half that the counter points to. The table keeps its form. |
| StringTables.ZeroIffEmpty | src/script.c:970-971 | The answer is 0 if and only if the string is empty, nothing is written then, and slot 0 never is. |
| StringTables.InternHolds | src/script.c:975-991 | The returned slot holds the requested string, if and only if the first slot whose copy equals it does not hold a longer one. |
| StringTables.OnlyOneLengthIsHidden | src/script.c:975-991 | Every request whose length is not exactly 1023 gets a slot that holds it. |
| StringTables.LongHidesShort | src/script.c:975-981 | A case of that length: a string of 1024 characters, then its first 1023. |
| StringTables.InternAgain | src/script.c:975-991 | Asking again gives the same index and the same strings if and only if the string is shorter than the scan's local buffer, or slot 255 alone is empty and the counter is at 254; it leaves the counter alone if and only if the string is shorter. |
| StringTables.CounterFollows | src/script.c:966-990 | In every run, until the table is full, the counter is 128 plus the number of entries modulo 128. |
| StringTables.AskTwice | src/script.c:963-992 | After every run, asking twice gives the same index and the same strings if and only if the string is shorter than the local buffer or slot 255 is the only empty one. |
| StringTables.LongAskedTwice | src/script.c:963-992 | A run of the second kind: 254 short strings, then a long one that gets slot 255 twice. |
| StringTables.StaysDistinctIff | src/script.c:975-991 | A request keeps distinct entries distinct if and only if it is shorter than the local buffer, or absent, or evicts its own single occurrence. |
| StringTables.RunIsOk | src/script.c:963-992 | In every run the strings form a gap-free prefix in which only strings too long for the scan's buffer occur twice, and the counter stays in the upper half. |
| StringTables.LongRepeats | src/script.c:963-992 | Any string too long for it does occur twice, in slots 1 and 2, when it is asked for twice. |
| StringTables.EntriesWereRequested | src/script.c:963-992 | In every run the table holds nothing but requests. |
| StringTables.ShortRun | src/script.c:963-992 | In every run of strings shorter than the buffer the entries are pairwise distinct, and every returned slot holds the requested string. |
| StringTables.LowerHalfIsPermanent | src/script.c:963-992 | An entry of the lower half never changes once set, in every continuation of every run. |
| Rotation.ProjectPointOnPlane | src/q_math.c:399-415 | What the function computes: the point lowered by its dot product with the normal, divided by the normal's squared length twice. |
| Rotation.ProjectsIff | src/q_math.c:399-415 | The result lies in the plane if and only if the normal is a unit vector or the point was in the plane already. |
| Rotation.LeastComponent | src/q_math.c:829-835 | The loop finds a component of least magnitude. |
| Rotation.ProjectionIsLong | src/q_math.c:836-842 | The projection of the chosen axis has squared length at least 2/3, so it can be normalised. |
| Rotation.VectorNormalize | src/q_math.c:641-655 | A non-zero vector becomes a unit vector in its direction; the zero vector stays. |
| Rotation.PerpendicularVector | src/q_math.c:820-848 | For a unit vector, the result is a unit vector perpendicular to it. |
| Rotation.ApplyMultiply | src/q_math.c:763-782 | Applying a product of matrices is applying one after the other. |
| Rotation.Complete | src/q_math.c:263-289 | The two perpendicular vectors and the axis form a complete frame. |
| Rotation.RotatePointAroundVector | src/q_math.c:252-306 | For a unit axis, the result is Rodrigues' rotation of the point, which mentions no perpendicular vector. |
| Rotation.RotationIsRodrigues | src/q_math.c:252-306 | The matrix product does not depend on which perpendicular vector was chosen. |
| Rotation.RotationIsRigid | src/q_math.c:252-306 | The rotation preserves every dot product. |
| Rotation.RotationFixesAxis | src/q_math.c:252-306 | The rotation leaves its axis in place. |
| Rotation.RotationIsOrthogonal | src/q_math.c:252-306 | The transpose of the rotation matrix is its inverse. |
| Angles.AngleSubtract | src/q_math.c:517-528 | Ends in [-180, 180], whole circles away from the difference, and leaves a difference in that range alone; from above it never ends at -180, from below never at 180. |
| Angles.MaskIsClose | src/q_math.c:551-553 | The masked angle is in [0, 360) and within 360/65536 of the angle modulo 360, below it for positive and above it for negative angles. |
| Angles.MaskIsIdempotent | src/q_math.c:551-553 | Masking twice is masking once. |
| Angles.FormsAgree | src/q_math.c:517-581 | The mask form lies in (-180, 180] and differs from the loop form by whole circles and less than 360/65536. |

## Left out

- Hooking and patching at fixed addresses, sockets, heartbeats, ban lists, console commands, script getters and setters: they have no logic of their own that a model could hold.
- Bodies in the host binary (`SV_DropClient`, `SV_CloseDownload`, snapshots, the network channel, compression): only their effect on the modelled fields appears. `Com_Error` is an outcome that ends the call.
- The clock itself (`Sys_Milliseconds`): its readings are parameters.
- Downloads.ClientDownload.WriteDownloadToClient: opening an empty file is taken to leave no open handle (the opening function is not part of this model); whether a refusal keeps the download name is not promised (the function that reports it is not part of this model); the ring slots hold the bytes of the last read rather than 8192-byte blocks allocated on first use; the message is a value rather than bits, so block numbers are not cut to 16 bits, and the names and error texts are not built.
- Downloads.ClientDownload.NextDownload: the function that runs is in the host binary. The model follows the disabled body, with the slot index its comment gives and the counter rather than its address advanced.
- ClientCommands.Client.ClientCommand: flood protection, tokenising and the dispatch of the command are not modelled, and the recorded command string is not cut to its buffer.
- Pacing.BandwidthBound: LAN and loopback clients, fast downloads and gamestates sent outside the scheduler are not paced by this code and are excluded; a fragment is charged the unsent length the scheduler charges it; the effective rate is constant over the run.
- Pacing.Server.SendMessageToClient: the records of sent frames, the drop on a pending reason and the byte totals are not modelled.
- Pacing.Server.TakeTurn: fragments that precede the snapshots of a fast download are not modelled, since the due time they set is overwritten.
- Pacing.Server.UserinfoChanged: the name filter is not modelled, and the results of `atoi` are parameters.
- InfoBuffers.SetValueForKey: a null value is not modelled, and what lies behind the buffer is not either: an overrun is reported instead. The large variants are the same code with the larger limit; their overlapping `strcpy` is taken as a move.
- Challenges.ChallengeTable.GetChallenge: the authorization query and the formatted packets are not modelled, and the random number is a parameter.
- Challenges.ChallengeTable.DirectConnect: bans, reconnect limits, authorization and slot choice are not modelled; whether a slot is found is a parameter. The search for a reconnecting client matches on port or qport, so no slot uniqueness is claimed.
- VaBuffers.VaBuffer.Va: the text arrives already formatted; the temporary buffer is not modelled. A string that is refused has overrun it before its length is tested.
- StrReplace.Replace: allocation never fails.
- StringTables.RunIsOk: `X_SetLocalizedStringIndex`, which may write any slot and reset the counter, is not part of the runs.
- Rotation.RotatePointAroundVector: vectors and matrices are values rather than output arrays, so overlapping arguments are not modelled; rounding and the accuracy of sine and cosine are not modelled.
- Angles.MaskIsClose: the scaled angle is assumed to be in the range of an int.
- List iteration over bans (`list_each`), `Q_CleanStr` and the other string helpers: outside the modelled components.
