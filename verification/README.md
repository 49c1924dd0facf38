# LockPing agent: verified model of the message boundary

This project models, in Dafny 4.11, how the LockPing agent turns messages from an untrusted relay
into actions on a PC, and proves what that boundary promises over every run: which lock commands
execute, how often, and on whose authority; that a pairing window is good for one pairing however
the threads interleave; that pairing and sealed commands work end to end; and how the relay
connection and the lock-state watchers behave. `dafny verify dfyconfig.toml` checks everything.

## Layout

| file | contents |
|---|---|
| `Text.dfy`, `Base64.dfy`, `GoTime.dfy` | byte strings; both base64 forms (sections 4 and 5 of RFC 4648, decoded the way Go does); Go's 64-bit time arithmetic with wrap-around and saturation |
| `Wire.dfy`, `Primitives.dfy`, `Consistency.dfy` | the payload; HMAC (RFC 2104), NaCl box and JSON as functions known by their laws only; a toy suite that satisfies all the laws |
| `Keys.dfy`, `Envelope.dfy`, `Pairing.dfy`, `Devices.dfy` | key text, the sealed format, the pairing window and its proofs, the allowlist |
| `NonceCache.dfy`, `Core.dfy`, `ReplayGuard.dfy` | the pruned nonce cache, payload handling, and the replay guarantees over whole runs |
| `Gateway.dfy`, `IgnoredMessages.dfy`, `PairingCompletes.dfy`, `SingleUse.dfy` | the gateway handling one message at a time |
| `System.dfy`, `Interleavings.dfy` | the gateway as a transition system of one handler thread and any number of UI threads, and its safety |
| `Deletion.dfy`, `InterleavedPairing.dfy` | over the same runs, the deletion of ignored messages, and the completion of pairings and commands |
| `Relay.dfy`, `Service.dfy`, `Watch.dfy` | reconnection and backoff; ordered service over every run; the two lock-state watchers |

Objects whose methods update fields (`Cache`, `Core`, `Window`, `DeviceStore`, `Gateway`, `Backoff`,
`Client`, `Watcher`) are classes; each method is proved against a function on the object's state, and
the theorems are about those functions. `System` splits the handling of a message at every access to
shared state and every reading of the clock, and `AloneIsSequential` shows that without interference the pieces add up to what the
sequential gateway does.

Clock readings, file writes, random bytes, session calls and network frames are parameters. The
clock is a single non-decreasing one, in nanoseconds; `checkFreshness` reads it twice and both
readings are kept; runs of lock commands take place between 1970 and 2116. A file write either succeeds or fails and leaves anything behind.

## Findings

* At most once is exact for an injected clock. With two readings (internal/core/core.go:80 and
  internal/core/core.go:84) it can fail: a command whose timestamp was `lead` ahead of the clock when
  it first executed can execute again under a gap of at most d between the two readings if and only if
  -30 s <= lead <= 30 s and lead + d > 30 s (`RepeatsExactly`). With one reading the TTLs that
  work are exactly those of at least twice the skew (`TtlIsExact`).
* If the device file cannot be written, `Add` has already put the device into memory
  (internal/secure/devices.go:60-61) and the window stays open (internal/gateway/gateway.go:120-124),
  so any two clients with the secret can pair over it (`FailedWriteLeavesWindowOpen` builds their
  requests). A window admits a second request after a first one if and only if the first one's write
  failed (`SecondDeviceExactly`, `SpentExactly`). README.md:19 and docs/protocol.md:43 of the
  repository call the window and its code one-time without that reservation.
* An id that may contain line feeds is not bound by the pairing MAC (internal/secure/pairing.go:57-61);
  the key always is (`IdWithLineFeedIsNotBound` gives two such ids, `TranscriptsCoincide` the exact
  condition).
* A comment in internal/session/wts_windows.go:198 holds that dropping an event on a full queue is
  harmless. It is not: after nine alternating events, the first and last of them a lock, the drained
  watcher last reports an unlocked machine (`NinthEventIsLost`). After draining, the last report is
  wrong if and only if the last relevant event met a full queue that ended in its opposite
  (`DrainedReport`).
* docs/protocol.md:48 has the agent show the device name for confirmation before it answers;
  the code answers at once, and the model follows the code.

## Model

| member | source | states |
|---|---|---|
| GoTime.CheckedSubIsSub | internal/core/nonce.go:19 | the wrapped, checked and saturating way in which Go subtracts times gives the true difference clamped to int64, for all times Go can represent |
| Core.Core.constructor | internal/core/core.go:28-36 | a new core has an empty cache whose TTL is twice the skew |
| Core.Core.Handle | internal/core/core.go:39-48 | dispatches on the kind; new state and reply are exactly those of the specification, none for unknown kinds |
| Core.Core.Lock | internal/core/core.go:64-72 | the session is locked only after the freshness check, and its error becomes the reply |
| Core.Core.CheckFreshness | internal/core/core.go:76-88 | missing nonce, stale timestamp and replayed nonce are told apart in this order, and only the last consults the cache |
| Core.StatusIsTruthful | internal/core/core.go:53-62 | a status request is answered with exactly what the session tells, the machine and the second of the reading, and changes nothing |
| Core.OtherKindsAreIgnored | internal/core/core.go:40-47 | a payload of any other kind gets no answer and changes nothing |
| NonceCache.Cache.Add | internal/core/nonce.go:17-28 | whatever order the pruning loop takes, exactly the entries older than the TTL go, and the verdict and the insertion follow |
| NonceCache.RejectsExactlyReplays | internal/core/nonce.go:16-28 | over any run, a call is rejected if and only if an accepted earlier call of that nonce is at most TTL old |
| NonceCache.CacheRefinesHistory | internal/core/nonce.go:17-28 | the pruned map gives the same verdicts as a rule over the whole unbounded history; rejected duplicates never extend the block |
| NonceCache.EntriesAreLive | internal/core/nonce.go:18-27 | every entry is an accepted call of age at most TTL, at its own instant |
| NonceCache.LiveAreEntries | internal/core/nonce.go:18-27 | every accepted call of age at most TTL is still in the map, not overwritten |
| NonceCache.AcceptedApart | internal/core/nonce.go:16-28 | two accepted uses of a nonce lie more than TTL apart |
| NonceCache.SizeCountsLiveCalls | internal/core/nonce.go:17-28 | after every call the map is as large as the number of calls accepted in the last TTL |
| ReplayGuard.FreshIsExact | internal/core/core.go:80-83 | despite wrap-around and saturation the skew test, also on the difference as Go computes it, accepts exactly \|now - ts\| <= 30 s, for every int64 timestamp |
| ReplayGuard.SeenIsCacheAfter | internal/core/core.go:39-88 | over any run of payloads the core's cache is the cache after the calls that passed nonce and skew |
| ReplayGuard.ExecutesExactly | internal/core/core.go:64-88 | over any run, a payload locks the session if and only if it is a lock command with a nonce, within the skew, and no execution with that nonce is at most TTL old |
| ReplayGuard.AnswerIsTrue | internal/core/core.go:64-92 | the lock_result echoes the nonce, says ok exactly when this command locked the session, and carries nothing but that and the error |
| ReplayGuard.RejectionNamesReason | internal/core/core.go:76-88 | a rejected command is told why: nonce missing, or else timestamp stale, or else nonce replayed within the TTL |
| ReplayGuard.OneLockCallEach | internal/core/core.go:64-72 | over any run the session is asked to lock once for each executing command and never otherwise |
| ReplayGuard.AtMostOnce | internal/core/core.go:64-88 | of all payloads with one nonce and timestamp at most one locks the session; the two clock readings of the later one may differ by the slack |
| ReplayGuard.AtMostOnceOnOneReading | internal/core/core.go:64-88 | at most once holds without proviso if the two clock readings of the later call agree |
| ReplayGuard.ShorterTtlReplays | internal/core/core.go:34 | for every TTL from zero to below twice the skew some run executes one message twice |
| ReplayGuard.TtlIsExact | internal/core/core.go:34 | with one clock reading per call, some run executes one message twice if and only if the TTL is below twice the skew |
| ReplayGuard.RepeatsExactly | internal/core/core.go:80-84 | exactly when a command can execute twice, by the lead of its timestamp at the first execution and the gap between the clock readings of the second |
| Base64.ValueExactly | internal/secure/keys.go:29-35 | each character is the digit of exactly one value or of none |
| Base64.QuadIsGroup | internal/secure/keys.go:29-35 | the four digits of a quantum are its 24 bits, most significant first |
| Base64.DecodableDigits | internal/secure/keys.go:34-35 | text that decodes consists of digits, with padding only at the end of the standard form |
| Base64.DecodeEncode | internal/secure/keys.go:29-35 | decoding inverts encoding at every length, padded and raw |
| Keys.DecodeEncodeKey | internal/secure/keys.go:29-42 | a key survives its text form |
| Keys.DecodedKeyLength | internal/secure/keys.go:34-42 | text that decodes to a key has 44 characters besides line breaks |
| Envelope.OpenSeal | internal/secure/crypt.go:17-49 | for matching key pairs and every plaintext, opening inverts sealing through prefix, base64 and nonce split, and the result is recognised as sealed |
| Envelope.SealedText | internal/secure/crypt.go:23-29 | what goes out is the prefix and the base64 of the nonce drawn for this message and of the box made with it |
| Envelope.NoncesShow | internal/secure/crypt.go:23-29 | messages sealed under different nonces differ, whatever else they share |
| Envelope.OpensExactly | internal/secure/crypt.go:34-49 | exactly what opens: prefix, base64, 24 bytes of nonce, and a box the library opens under it |
| Envelope.PlaintextIsNotSealed | internal/secure/crypt.go:17-19 | JSON text never passes for sealed |
| Pairing.Window.constructor | internal/secure/pairing.go:27-34 | a new window is unused and expires five minutes on |
| Pairing.Window.VerifyRequest | internal/secure/pairing.go:37-47 | accepts exactly for an existing, unused window up to and including its deadline and the right MAC |
| Pairing.VerifiesExactly | internal/secure/pairing.go:37-47 | exactly which requests verify: a window unused and not expired, and the HMAC over label, id and key text, each on its line |
| Pairing.AcceptsExactly | internal/secure/pairing.go:76-85 | exactly which answers a client accepts |
| Pairing.OneMacOneKey | internal/secure/pairing.go:37-61 | a MAC text accepted twice by a window goes with the same key, and for ids without line feeds the same id, short of an HMAC collision |
| Pairing.RequestIsNoAnswer | internal/secure/pairing.go:37-61 | a MAC text that serves as request and as answer is an HMAC collision |
| Pairing.Window.Consume | internal/secure/pairing.go:55 | spends the window and changes nothing else |
| Pairing.BothSidesAgree | internal/secure/pairing.go:37-85 | a client holding the secret is accepted by the open window, and accepts the window's answer |
| Pairing.PairCodeText | internal/secure/pairing.go:95-107 | the code is the prefix lockping: and the base64 of the JSON of relay, agent and secret |
| Pairing.ReadEncodedPairCode | internal/secure/pairing.go:95-107 | scanning the shown code gives back relay, agent and secret |
| Pairing.TranscriptsCoincide | internal/secure/pairing.go:57-61 | exactly when two transcripts with usable keys coincide: equal, or differing by line breaks shifted between id and key text |
| Pairing.TranscriptBindsKey | internal/secure/pairing.go:57-61 | coinciding transcripts carry the same key, and for ids without line feeds the same id and key text |
| Pairing.IdWithLineFeedIsNotBound | internal/secure/pairing.go:57-61 | two different ids share a transcript if line feeds are allowed in ids |
| Pairing.LabelsSeparate | internal/secure/pairing.go:41-61 | a request transcript is never an accept transcript |
| Devices.DeviceStore.Load | internal/secure/devices.go:31-51 | missing, current and old files load as promised; unreadable or corrupt ones give an error |
| Devices.DeviceStore.Add | internal/secure/devices.go:54-62 | a bad key changes nothing; otherwise the device is in memory and the result is that of the write |
| Devices.DeviceStore.Remove | internal/secure/devices.go:65-73 | an unknown id changes nothing; otherwise exactly that device goes |
| Devices.DeviceStore.Get | internal/secure/devices.go:76-88 | the stored key, if the id is known and its text decodes |
| Devices.DeviceStore.List | internal/secure/devices.go:91-101 | each device exactly once, oldest first |
| Devices.DeviceStore.Count | internal/secure/devices.go:104-108 | the number of devices |
| Devices.DeviceStore.PersistLocked | internal/secure/devices.go:110-119 | the file becomes the table, or whatever a failed write leaves |
| Devices.RemovalSparesOthers | internal/secure/devices.go:65-73 | a removal takes off that device and no other, on every write outcome, and says whether it succeeded |
| Devices.AddingSparesOthers | internal/secure/devices.go:54-62 | adding touches no other device, stores exactly usable keys, and says whether it succeeded |
| Devices.LoadsExactly | internal/secure/devices.go:31-51 | unreadable and corrupt files give no store, and a migrated file answers each id with the key it had |
| Devices.ListingFacts | internal/secure/devices.go:91-108 | a listing is as long as the count, repeats no id and names exactly the stored ids |
| Devices.StoredKeysDecode | internal/secure/devices.go:54-88 | from an empty store, after any operations every stored key decodes and Get answers exactly the stored ids |
| Devices.LastWriteDecidesReload | internal/secure/devices.go:31-73 | from any loaded store, after any operations, reloading gives the same table exactly when the last write succeeded or its debris happens to load so; always after a success |
| Gateway.Gateway.OpenPairing | internal/gateway/gateway.go:46-58 | a fresh window replaces the current one, with code and displayed deadline; without entropy nothing changes |
| Gateway.Gateway.Pairing | internal/gateway/gateway.go:61-72 | the code and the time left, strictly before the deadline |
| Gateway.OpenedIsShown | internal/gateway/gateway.go:46-72 | a newly opened window is shown with its code and the time left of five minutes, and from the deadline on not at all |
| Gateway.ShownExactly | internal/gateway/gateway.go:61-72 | a code is shown exactly while there is a window and its displayed deadline is to come |
| Gateway.MessagesLeaveDisplay | internal/gateway/gateway.go:61-138 | no message changes the display, so a spent window is shown until its deadline |
| Gateway.Gateway.Handle | internal/gateway/gateway.go:78-83 | sealed and plaintext messages take their paths; the whole new state and the reply are those of the specification |
| Gateway.Gateway.HandleSealed | internal/gateway/gateway.go:85-105 | only messages that open under the sender's stored key reach the core |
| Gateway.Gateway.HandlePairRequest | internal/gateway/gateway.go:107-138 | verify, store, consume, answer, with each way out |
| Gateway.Gateway.SealReply | internal/gateway/gateway.go:154-164 | there is a reply exactly when the random source works; it carries the nonce just drawn and the box made with it, and every client with a key pair for the sender's key opens it to the payload |
| IgnoredMessages.IgnoredExactly | internal/gateway/gateway.go:78-138 | the only two ways in which an unanswered message changes the state, and exactly what changes |
| IgnoredMessages.DeletingIgnoredChangesNothing | internal/gateway/gateway.go:78-138 | deleting every unanswered message from any run changes no other outcome and not the final state, and leaves only answered messages |
| PairingCompletes.RequestIsAccepted | internal/gateway/gateway.go:107-138 | a request built from the secret and delivered in time stores the key, spends the window, and gets an answer that the client verifies |
| PairingCompletes.SealedCommandIsServed | internal/gateway/gateway.go:85-105 | a paired client's sealed command reaches the core, and the sealed answer opens at the client as the core's reply |
| PairingCompletes.StatusReachesClient | internal/core/core.go:53-62 | the answer that a paired client opens and reads to a sealed status request tells the session's reading |
| PairingCompletes.PairThenCommand | internal/gateway/gateway.go:46-138 | from the shown code to the first executed and answered command |
| SingleUse.SpentExactly | internal/gateway/gateway.go:107-138 | a message spends the window if and only if the window admits it and the file can be written |
| SingleUse.AdmitsExactly | internal/gateway/gateway.go:107-119 | exactly which messages a window admits, in terms of the decoded message and the HMAC |
| SingleUse.StrangersAreIgnored | internal/gateway/gateway.go:107-119 | a plaintext message that the window does not admit gets no answer and changes nothing |
| SingleUse.SecondDeviceExactly | internal/gateway/gateway.go:113-124 | of two requests that a window would admit, the second is admitted after the first if and only if the first one's write failed |
| SingleUse.FailedWriteLeavesWindowOpen | internal/gateway/gateway.go:120-124 | after a failed write the requests of any two clients with the secret pair both over one window |
| System.Invariant | internal/gateway/gateway.go:46-138 | in every reachable state the handler's window is unspent until it consumes it, its request is proven, and no current window outlives the display |
| System.AloneIsSequential | internal/gateway/gateway.go:78-138 | without interference the fine-grained steps give exactly the state and reply of the sequential gateway |
| System.CreateInstallIsOpened | internal/gateway/gateway.go:46-58 | the two steps of a UI thread that opens a window do what the sequential OpenPairing does |
| System.UnpairAndShow | internal/gateway/gateway.go:61-75 | unpairing and looking at the code change the store as Remove does, and nothing else |
| Interleavings.OneAcceptPerWindow | internal/gateway/gateway.go:107-138 | over every interleaving a window yields at most one pair_accept |
| Interleavings.OneInsertionPerWindow | internal/gateway/gateway.go:116-124 | each device a window admits beyond the first costs a failed write; while writes succeed it admits at most one |
| Interleavings.AcceptStory | internal/gateway/gateway.go:113-137 | each pair_accept answers for the window that was current when its request arrived, and no other window was spent meanwhile |
| Interleavings.FlightSpendsOnlyItsWindow | internal/gateway/gateway.go:113-124 | an in-flight request never consumes a window that replaced its own |
| Interleavings.InsertionStory | internal/gateway/gateway.go:46-124 | every insertion goes back to a created and installed window, a request received while it was current, and a check in time of the MAC over exactly that id and key text |
| Interleavings.DeviceProvenance | internal/gateway/gateway.go:107-124 | every device in every reachable state was loaded with the file or inserted by a proven request, and not removed since |
| Interleavings.AllowlistIsExact | internal/secure/devices.go:54-73 | over every interleaving a device is on the allowlist, with just this key, name and time, if and only if it was so loaded or inserted and not touched since |
| Interleavings.ListedStays | internal/secure/devices.go:54-73 | nothing but its own removal takes a device off the allowlist |
| Interleavings.LockStory | internal/gateway/gateway.go:85-105 | every lock comes from a message that opened under the key then stored for its sender, which has such a provenance |
| Interleavings.CoreSeesInputs | internal/gateway/gateway.go:100-104 | over every interleaving the core's state is that of the sequence of payloads handed to it |
| Interleavings.LocksAtMostOnce | internal/gateway/gateway.go:85-105 | at most once, across senders and over every interleaving |
| Interleavings.LocksAtMostOnceOnOneReading | internal/core/core.go:64-88 | at most once without proviso, across senders and over every interleaving, if the two clock readings of the later command agree |
| Interleavings.LocksOnce | internal/core/core.go:64-72 | a step asks the session to lock once or not at all |
| Interleavings.AcceptedWhileShown | internal/gateway/gateway.go:46-72 | a request accepted on the current window is accepted while its code is displayed with the time left, or at the very deadline |
| Interleavings.CodeIsOfCurrentWindow | internal/gateway/gateway.go:46-58 | the displayed code carries the secret of the current window |
| Interleavings.IgnoredIsInvisible | internal/gateway/gateway.go:78-138 | over every interleaving, the handling of an unanswered message touches nothing shared unless a write or the random source fails |
| Deletion.DeletingIgnoredLeavesARun | internal/gateway/gateway.go:78-138 | from every interleaved run the steps of the messages that were ignored without a failure can be deleted: the rest is a run with the same outputs and the same final shared state |
| InterleavedPairing.RequestCompletes | internal/gateway/gateway.go:107-138 | over every interleaving, a request from the secret of the current unspent window, checked in time and written, stores the key, spends the window and convinces the client |
| InterleavedPairing.CommandCompletes | internal/gateway/gateway.go:85-105 | over every interleaving, a sealed command of a client stored at its reception reaches the core, and the client opens the core's answer |
| Consistency.LawsHoldTogether | internal/secure/crypt.go:28-44 | the laws assumed of the libraries are consistent |
| Relay.Backoff.Next | internal/relay/client.go:161-171 | one second, doubling, capped at thirty |
| Relay.Backoff.Reset | internal/relay/client.go:173 | back to the start |
| Relay.Handshake | internal/relay/client.go:99-122 | succeeds exactly on a welcome, directly or after an answered challenge |
| Relay.Serve | internal/relay/client.go:136-154 | writes the in-order replies to exactly the envelope frames, each to its sender, up to the first failing write, and hands the handler nothing after that |
| Relay.Client.Session | internal/relay/client.go:82-97 | handshake, reset, connected callback, service, disconnected callback |
| Relay.Client.Run | internal/relay/client.go:66-80 | the observable trace over any series of attempts; it returns only by being cancelled, in either way |
| Relay.RunIsSound | internal/relay/client.go:66-154 | over every run callbacks strictly alternate from connected, each connection follows a completed handshake and a reset, and each wait fits its streak |
| Relay.WaitsOfRun | internal/relay/client.go:66-173 | over every run the n-th wait since the last handshake is min(2^(n-1), 30) s |
| Relay.WaitClosedForm | internal/relay/client.go:161-171 | closed form of the n-th wait, never above 30 s |
| Relay.SumClosedForm | internal/relay/client.go:161-171 | the first n waits add up to 2^n - 1 s up to the fifth, then 30 s more each |
| Relay.SumsOfRun | internal/relay/client.go:66-173 | at every moment of every run the n waits since the last handshake add up to 2^n - 1 s up to the fifth, then 30 s more each |
| Service.DeliveriesServe | internal/relay/client.go:136-154 | what a session writes are the replies to exactly the envelope frames, each to its sender, in their order and up to the first failing write; and which frames the handler has seen |
| Service.RunServes | internal/relay/client.go:66-154 | over every run all that is written are the replies of the welcomed sessions, each taking up the handler where the one before left it |
| Service.RunInPhase | internal/relay/client.go:66-97 | over every run envelopes are written only between the two callbacks of a connection, and handshakes and waits fall outside |
| Service.ConnectsExactly | internal/relay/client.go:99-122 | an attempt connects if and only if the relay sent a frame of type welcome, at once or after an answered challenge |
| Watch.CompressAlternates | internal/session/session.go:22-24 | run compression starts with the first reading, strictly alternates and ends with the last |
| Watch.MentionsLockedHint | internal/session/logind_linux.go:175-195 | exactly the signals that change or invalidate LockedHint of a session |
| Watch.WatchLogind | internal/session/logind_linux.go:135-170 | reports the run compression of the first reading and those after relevant signals |
| Watch.CompressionReports | internal/session/logind_linux.go:135-170 | signal by signal: a signal that concerns LockedHint and brings a reading other than the last report is reported, and nothing else is |
| Watch.EventsExactly | internal/session/winmap.go:13-37 | event 7 means locked, 8 unlocked, and no other event matters |
| Watch.Watcher.WndProc | internal/session/wts_windows.go:192-201 | a relevant event enters the queue, or is dropped if eight are waiting |
| Watch.Watcher.TakeEvent | internal/session/wts_windows.go:138-147 | takes the oldest event and reports it if it is a change |
| Watch.WatchRefinesCompression | internal/session/wts_windows.go:114-201 | however the threads take turns, the queue is first-in first-out and the reports are the compression of what was taken |
| Watch.DrainedReport | internal/session/wts_windows.go:138-201 | after draining, the last report differs from the last relevant event if and only if that event met a full queue ending in its opposite; if nothing was dropped, the reports are the compression of all relevant events |
| Watch.DropLosesState | internal/session/wts_windows.go:195-199 | an event that is dropped while the queue ends in its opposite leaves the last report wrong |
| Watch.NinthEventIsLost | internal/session/wts_windows.go:114-201 | a concrete run: nine alternating events without a taker, and the drained watcher last reports the opposite of the last event |

## Left out

- The strength of HMAC, X25519 and NaCl box, and `ProveChallenge`: only their functional laws are used. That a MAC proves knowledge of the secret is stated as equality with the MAC of the window's transcript.
- JSON syntax in `wire`, the pairing code and devices.json: an encoder and decoder that round-trip on valid UTF-8 and whose output starts with a brace.
- `sanitizeName` is an arbitrary function; `pickCandidate`, `sessionPath`, `lockedFromSessionFlags` and `identity` would only add easy members.
- The web UI, tray, command line, autostart and packaging: only that UI threads open windows, look at the code and remove devices.
- WebSocket, D-Bus and Win32 calls, the one-watcher-per-process flag and the message pump: frames, signals, readings, events and errors are parameters.
- A separate monotonic clock: wall and monotonic readings are taken to agree. Sums of a clock reading and the window's five minutes are exact integers.
- Several processes: a run is one process lifetime, since the nonce cache is not stored.
- The mutex around the window fields and the store's own mutex appear as atomic steps; the unsynchronised flag of a window is only touched by the one handler thread.
- Relay.Client.Run: models finitely many attempts, because an endless run is the union of its finite beginnings.
- Devices.DeviceStore.List: the library sort is represented by a sort that meets the same contract.
- Consistency.LawsHoldTogether: about the library laws, not about code of the repository.
