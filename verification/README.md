# PlantNode, modelled in Dafny

This project models the firmware of a plant-watering node and the side of its
controller ("charter") that talks to it, and proves what they keep over whole runs:

- **The I2C driver.** Threads share one bus through a table of four reservations with
  deadlines, a generation counter used as a futex word, and leases that outlive a batch.
  `Reservations` has the table, its locked sections as functions and, on a real array,
  as methods that compute those functions. `Batches` has admission, leases, and
  `i2c_transact` with its wait loop and step loop, interrupted by other threads
  everywhere. `BusProtocol` is the step machine of any number of threads, with the
  ownership check and the transfer as separate steps; `BusInvariant` proves its
  invariant, `BusTheorems`, `BusHolding` and `BusGrants` the run-level results,
  `BusOutcomes` what may reach the wire and that nothing allowed is out of reach,
  `BusWitness` the concrete runs that show where a bound is exact.
- **The command path.** `Decimal` and `Frames` hold the digit and byte loops;
  `PolicyEngine` the hand-written parser and its accepted language; `CommandOrder` the
  timestamp-ordered register under reordering and duplication; `CryptoSession` the
  session and its message ids; `CharterCrypto` the other end of it; `CommandPath` the way
  from the operator to the register; `DeviceLife` the register through sessions, restarts
  and whatever else is published on the command topic.
- **The telemetry path.** `TelemetryJson` is the bounded JSON writer with a reader that
  inverts it, `Attestation` the query, the one-slot mailbox and the latch,
  `AttestationTexts` and `JsonStrings` independent readers of the texts exchanged,
  `TelemetryRun` the machine that gates telemetry, `Display` the line printer.
- **Sensors and irrigation.** `Sensors` unpacks and scales measurements and holds the
  stand-in moisture source; `Irrigation` is the loop, interleaved with commands and with
  the telemetry thread that shares the source and the mailbox; `Strides` the arithmetic
  of sharing a sequence of period twelve.

`dafny verify dfyconfig.toml` checks everything.

A state machine here takes any sequence of actions; an action its thread is not ready
for changes nothing, so a statement about every sequence is a statement about every
interleaving. Claim ids, call ids, logs and the counters of bumps and readings are
history: the firmware has none of them, and no step depends on them.

Where the code and its own documentation differ, the model follows the code:

- `i2c_driver.h` promises leases of at most `min(durationMs, maxLeaseMs)`. A granted
  lease keeps to that if and only if neither is 0 (`LeaseWithinMinimumIff`): a ceiling of
  0 skips the clamp, and a request of 0 stands for the ceiling. `LeasesBeyondMinimum` has
  one lease of each kind.
- Step kinds other than the three named ones skip admission and take the read path.
  `ForbiddenTransferIff` says exactly when an admitted batch can put on the wire what its
  capability does not allow, and `UnnamedKindReadsTheWire` is a run in which one does.
- A batch is described as atomic. `OvertakenIff` says exactly when a foreign transfer
  can still land in front of a passed check, and `StaleTransferRun` is such a run.
- Commands are described as ordered by timestamp. Order and repetition of what arrives do
  not matter if and only if the newest commands agree on the threshold
  (`ConvergesIff` for packets, `FramesConvergeIff` for encrypted frames).
- `append_decimal` takes a divisor, but its text reads as the quotient for the divisors
  10 and 1 only (`ShowsTheQuotientIff`).
- The charter warns about commands the device will probably drop. `WarningIff` and
  `WarningRightIff` say exactly when it is right; `SilentDrop` and `FalseWarning` show
  both ways in which it is not.
- The mailbox drops a message that carries the query marker. A reply to a device named
  "query", or with a name that ends with `"query`, carries it too (`ReplyAcceptedIff`).
- `moisture_sensor.h` says the stand-in source starts around 900; the code starts at 310.
  Both loops draw from it. If the irrigation loop gets every m-th reading from the a-th
  on, counted from 0, it waters if and only if gcd(m, 12) divides a - 1
  (`SteadyWatersIff`): taking turns with telemetry, never if it or any even number of
  telemetry readings comes first, and within twelve ticks otherwise (`TurnsWaterIff`).

## Model

| member | source | states |
|---|---|---|
| Reservations.ReservationTable.ExpireLocked | src/drivers/i2c_driver.cc:80-96 | in place, exactly the slots at or past their deadline are freed, all else stays, and the word is bumped and waiters woken once if and only if something was freed |
| Reservations.ReservationTable.FindLocked | src/drivers/i2c_driver.cc:99-109 | the first active slot of the address, or none if there is none |
| Reservations.ReservationTable.ReserveLocked | src/drivers/i2c_driver.cc:123-150 | one pass of the reserve loop: sweep, then a claim of the first free slot with all five fields set, re-entry that changes nothing, a block by another owner, or a full table; the snapshot is the word after the sweep |
| Reservations.ReservationTable.ReleaseDevice | src/drivers/i2c_driver.cc:159-170 | only the caller's own slot of the address is freed, and only then is the word bumped |
| Reservations.ReservationTable.CheckLocked | src/drivers/i2c_driver.cc:287-296 | after a sweep, whether the slot found belongs to the caller |
| Reservations.ReservationTable.LeaseLookup | src/drivers/i2c_driver.cc:261-266 | weHoldLease looks at the slot of the address whoever owns it |
| Reservations.OwnedMeans | src/drivers/i2c_driver.cc:99-109 | with pairwise different addresses the scan order does not matter: the check passes iff the caller owns some slot of the address |
| Batches.LeaseTermMeans | src/drivers/i2c_driver.cc:353-379 | a lease is granted iff the flag is set and request or ceiling is positive, and then for the longest term within those of the two that are positive |
| Batches.LeaseWithinMinimumIff | src/drivers/i2c_driver.h:63-66 | the header's minimum of request and ceiling holds iff both are positive |
| Batches.LeasesBeyondMinimum | src/drivers/i2c_driver.cc:366-373 | a lease beyond the minimum for a ceiling of 0, and one for a request of 0 |
| Batches.AdmitMeans | src/drivers/i2c_driver.cc:213-248 | the union-of-operations and length tests amount to: every read or write step is granted and short enough; -EPERM exactly for a bad handle or an operation not granted |
| Batches.OutcomeShape | src/drivers/i2c_driver.cc:268-299 | transfers follow the step order, skip delays, have a buffer and a length, and stop at a failure; the result is 0 iff every read and write step was attempted and accepted |
| Batches.AttemptsPermitted | src/drivers/i2c_driver.cc:179-243 | every attempted transfer has a buffer and at least one byte, and if its kind has a name, is granted and within maxTransferLen |
| Batches.AdmittedIsPermittedIff | src/drivers/i2c_driver.cc:186-243 | in every outcome of an admitted batch all transfers are within the capability iff no step of unnamed kind outside it can be got to and sent |
| Batches.Bus.ReserveDevice | src/drivers/i2c_driver.cc:117-157 | the wait loop: 0 means owned, a claim of its own runs for exactly the ticks asked for and has the lease flag asked for, -EBUSY means a full table, -ETIMEDOUT means another owner |
| Batches.Bus.DoTransfer | src/drivers/i2c_driver.cc:177-207 | nothing is sent without a buffer and a length, nor without a passed check directly in front |
| Batches.Bus.Check | src/drivers/i2c_driver.cc:287-296 | the check passes iff the caller holds the address, and leaves no expired slot |
| Batches.Bus.Validate | src/drivers/i2c_driver.cc:213-248 | the two validation loops decide admission |
| Batches.Bus.RunSteps | src/drivers/i2c_driver.cc:268-299 | under any interference the attempts and the checks are those of a prefix of sendable steps and of the step it failed at, which is one that can fail so |
| Batches.Bus.Serve | src/drivers/i2c_driver.cc:259-305 | look-up, step loop, and a release iff the slot looked up was no lease; after it the caller holds nothing on the device |
| Batches.Bus.Transact | src/drivers/i2c_driver.cc:210-306 | a rejected batch touches neither table nor wire, one without a reservation makes no other move, any other runs its course on a slot of its own for the address, which if newly claimed is due for the full batch time and is no lease |
| Batches.Bus.AcquireLease | src/drivers/i2c_driver.cc:350-381 | refusals leave the table alone; a slot newly claimed is a lease that ends the granted term after now, neither sooner nor later |
| Batches.Bus.ReleaseLease | src/drivers/i2c_driver.cc:383-393 | exactly the caller's slot of the device is freed, even if it is not a lease |
| BusInvariant.ExecInv | src/drivers/i2c_driver.cc:117-305 | the invariant of table, owners, program counters and log is kept by every run |
| BusTheorems.BatchIsolation | src/drivers/i2c_driver.cc:254-299 | a passed check finds the very claim the batch entered with, before its deadline, and no other thread passed a check on the address since the batch entered |
| BusTheorems.ForeignTransferIsStale | src/drivers/i2c_driver.cc:287-297 | a foreign transfer between a batch's entry and its passed check was itself checked before that entry |
| BusTheorems.OneStaleTransferPerThread | src/drivers/i2c_driver.cc:287-297 | each other thread can do that at most once per batch |
| BusTheorems.OvertakenIff | src/drivers/i2c_driver.cc:287-297 | a batch with a live claim can still be overtaken on the wire iff another thread is between its check and its transfer on that device |
| BusHolding.FinishedBatch | src/drivers/i2c_driver.cc:268-305 | in every run, what a returned batch put on the wire is what the specification of its result says, or it never had the reservation and sent nothing |
| BusOutcomes.WireConfined | src/drivers/i2c_driver.cc:177-243 | in every run, whatever is put on the wire has a buffer and at least one byte, is no delay, and if its kind has a name, is granted and within maxTransferLen |
| BusOutcomes.Reachable | src/drivers/i2c_driver.cc:268-305 | every result and every sequence of attempts the specification allows is that of some run |
| BusOutcomes.OutcomesExact | src/drivers/i2c_driver.cc:268-305 | so, but for calls that gave up waiting, the specification allows exactly what happens |
| BusOutcomes.ForbiddenTransferIff | src/drivers/i2c_driver.cc:186-205 | an admitted batch can exceed its capability on the wire iff it has a step of unnamed kind outside it, with a buffer and a length, behind no transfer that do_transfer refuses |
| BusOutcomes.UnnamedKindReadsTheWire | src/drivers/i2c_driver.cc:197-204 | a run in which a write-only device is read, beyond the length limit |
| BusHolding.BatchSlotsAreInUse | src/drivers/i2c_driver.cc:301-304 | every active slot that is no lease belongs to a thread inside i2c_transact on that address |
| BusHolding.AcquiredIsLease | src/drivers/i2c_driver.cc:350-381 | a 0 from i2c_lease_acquire leaves the caller a lease, new with its own deadline or untouched |
| BusHolding.ClaimSurvives | src/drivers/i2c_driver.cc:261-266 | no move of any thread ends an unexpired claim but its batch's own end or its lease's release, whatever weHoldLease was read from |
| BusHolding.LeaseLasts | src/drivers/i2c_driver.cc:145-148 | through any run a lease's slot stays as it is until its owner releases it or its deadline comes; batches on it extend nothing |
| BusHolding.BoundedHold | src/drivers/i2c_driver.cc:133-140 | an active slot shows what its claim was granted, and ends at most the capability's ceiling after the claim, or the term asked for if that ceiling is 0 |
| BusHolding.ExpiredBlocksNobody | src/drivers/i2c_driver.cc:80-96 | a thread that ends up waiting waits for a claim of another thread that has not expired |
| BusHolding.CheckPassesIff | src/drivers/i2c_driver.cc:287-296 | a check passes iff the thread holds the address by an unexpired claim, and leaves none expired and no other slot changed |
| BusHolding.SleeperIsBlocked | src/drivers/i2c_driver.cc:149-155 | no lost wake-up: with the word unchanged (fewer than 2^32 bumps) a waiter is still blocked by the claim it saw |
| BusHolding.AsleepOnCurrentWord | src/drivers/i2c_driver.cc:91-95 | in every run a sleeping thread's snapshot equals the current word |
| BusHolding.NeverTableFull | src/drivers/i2c_driver.cc:143 | with at most four device addresses no call ever returns -EBUSY |
| BusGrants.SlotsGrantedInFull | src/drivers/i2c_driver.cc:133-140 | in every run an active slot has its claim's address, owner and kind, and ends exactly the capability's batch time, or the lease's term, after the tick of the claim, if the counter does not wrap |
| BusGrants.ClaimsIff | src/drivers/i2c_driver.cc:123-147 | a pass of the reserve loop makes a claim iff no unexpired claim is on the address and some slot is free or expired, and the claim starts now |
| BusGrants.TimelyCheckPasses | src/drivers/i2c_driver.cc:287-296 | in every run, at every clock below its claim's deadline, a batch's check passes |
| BusGrants.BatchHasItsTime | src/drivers/i2c_driver.cc:133-140 | so it passes for the whole maxBatchMs from the tick of the batch's own claim, or the whole term of the lease it rides on |
| BusGrants.RequestKeepsTerm | src/drivers/i2c_driver.cc:366-379 | a granted request reserves for the longest term within request and ceiling |
| BusGrants.LeaseLastsInFull | src/drivers/i2c_driver.cc:133-140 | a lease its owner does not release stays in the table unchanged, in every run, at every clock below its claim plus its whole term |
| BusGrants.ReleaseFrees | src/drivers/i2c_driver.cc:383-393 | after i2c_lease_release the caller has no slot of the device, and all other slots are as before |
| BusGrants.FreeingWakes | src/drivers/i2c_driver.cc:80-170 | whatever move lets a slot go, no thread is left asleep |
| BusGrants.SleeperGoesOn | src/drivers/i2c_driver.cc:149-155 | a sleeper stays asleep, goes back to reserving for its call, or gives up with -ETIMEDOUT |
| BusGrants.RefusedTouchesNothing | src/drivers/i2c_driver.cc:213-248 | calls refused before they reserve change nothing but the record of the refusal |
| BusWitness.StaleTransferRun | src/drivers/i2c_driver.cc:287-297 | a run of two batches in which a foreign transfer lands before a passed check |
| BusWitness.FiveDevicesFillTheTable | src/drivers/i2c_driver.cc:143 | over any five addresses some run returns -EBUSY, so the bound of four is exact |
| Decimal.WriteUint | src/crypto.cc:151-171 | low digits first, then reversed in place: at most ten of eleven bytes, and they are the numeral |
| Decimal.AppendUint | src/display/display.cc:32-46 | low digits first, then copied backwards: the same numeral, appended at the pointer, all else untouched |
| Decimal.NumeralCanonical | src/crypto.cc:151-171 | no leading zeros, and a leading zero only for 0 (section 6 of RFC 8259) |
| Decimal.NumeralOfValue | src/crypto.cc:151-171 | the canonical digit strings are exactly the numerals: printing inverts reading |
| Decimal.ValueOfNumeral | src/policy_engine.cc:66-79 | reading inverts printing |
| PolicyEngine.ParseUintField | src/policy_engine.cc:48-81 | the guarded 32-bit loop succeeds iff the key is followed by a non-empty maximal digit run worth at most 2^32-1, and returns that value without wrapping |
| PolicyEngine.AcceptedLanguage | src/policy_engine.cc:100-132 | a packet says a command iff some prefix is the two-field form of it, leading zeros allowed, anything after the brace ignored |
| PolicyEngine.Engine.UpdateThreshold | src/policy_engine.cc:83-148 | a rejected packet changes nothing; an applied one is accepted by the language and strictly newer |
| PolicyEngine.Engine.Evaluate | src/policy_engine.cc:18-43 | waters iff the reading is below the threshold: pump on, 2500 ms, pump off, and off when it returns; otherwise nothing |
| PolicyEngine.PulseWaters | src/policy_engine.cc:35-37 | replayed against any history that left the pump off, a watering switches it on once, for 2500 ms, and leaves it off |
| CommandOrder.AppliedExactly | src/policy_engine.cc:134-144 | exactly the accepted packets with a positive timestamp above every earlier accepted one are applied |
| CommandOrder.FinalReflects | src/policy_engine.cc:15-16 | the register shows the largest timestamp with the threshold it first arrived with, the initial values if there is none |
| CommandOrder.ReflectsUnique | src/policy_engine.cc:15-16 | and that determines it |
| CommandOrder.ConvergesIff | src/policy_engine.cc:134-144 | every reordering and duplication of a stream leaves the same register iff its newest commands agree |
| Frames.ShiftOut | src/crypto.cc:65-69 | the shift-out loop writes the little-endian bytes and nothing else |
| Frames.OrIn | src/crypto.cc:244-248 | the or-in loop reads them back as a number |
| Frames.LeRoundTrip | charter/encryption.py:44 | a number that fits survives to_bytes and from_bytes |
| Frames.LeBytesOfValue | charter/encryption.py:86 | and every byte string survives from_bytes and to_bytes |
| TelemetryJson.PlainBuffer.Serialise | src/crypto.cc:128-206 | the bounded writer never fails and leaves exactly the reading's JSON |
| TelemetryJson.JsonLength | src/crypto.cc:128-131 | between 74 and 105 of the 128 bytes for every reading |
| TelemetryJson.ReadBack | src/crypto.cc:193-198 | all five fields, the signed one included, are read back by the firmware's own field scanner |
| TelemetryJson.JsonInjective | src/crypto.cc:193-198 | equal texts come from equal readings |
| CryptoSession.Crypto.InitSession | src/crypto.cc:83-112 | a failed exchange changes nothing; a successful one sets both keys and restarts the ids |
| CryptoSession.Crypto.EncryptPlain | src/crypto.cc:54-81 | id in front, sealed text behind; only success consumes an id |
| CryptoSession.Crypto.Encrypt | src/crypto.cc:114-217 | the overflow branch is dead and the frame fits its maximum |
| CryptoSession.Crypto.Decrypt | src/crypto.cc:219-265 | each refusal in order, and otherwise what the box opens under the id in front |
| CryptoSession.CounterCounts | src/crypto.cc:78-105 | over any mix of calls the counter is the number of frames sent since the session started, and both keys are those of its exchange |
| CryptoSession.IdOfFrame | src/crypto.cc:65-80 | the k-th frame of a session carries k, from 0 |
| CryptoSession.IdsAreFresh | src/crypto.cc:65-80 | no id occurs twice in a session of fewer than 2^64 frames |
| CharterCrypto.Handshake | src/crypto.cc:102-105 | after an exchange that yields (tx, rx), whatever was there before: the device opens what the charter encrypts under rx, the charter opens under tx what the device seals, and the first id is 0 |
| CharterCrypto.StillUnderstood | src/crypto.cc:83-112 | and that stays so through any calls until the next exchange |
| CharterCrypto.FrameOpens | charter/encryption.py:74-86 | the device opens what encrypt_command makes under its receiving key, under every message id |
| CharterCrypto.SealedOpens | charter/encryption.py:54-71 | decrypt_message inverts the device's framing and sealing, under every message id |
| CommandPath.Charter.SendThreshold | charter/commands.py:41-51 | the order just given is warned about iff it is not after the last one ever sent; its frame carries the number of earlier orders under the key, and a device with that key opens it to the order's text |
| CommandPath.TextRoundTrip | charter/commands.py:13-22 | the firmware reads the charter's text back, and refuses it exactly if a number is out of range |
| CommandPath.TextLength | charter/commands.py:22 | 29 to 42 bytes |
| CommandPath.EndToEnd | src/comms.cc:124-157 | for every timestamp, threshold, id and register, the device obeys what the charter sent iff it is newer |
| CommandPath.ArrivedIsNewest | src/comms.cc:131-144 | after any history of frames the device holds a newest order, or there was none with a positive timestamp |
| CommandPath.FramesConvergeIff | src/comms.cc:131-144 | order, repetition and message ids of a history of frames do not matter iff its newest orders agree on the threshold |
| DeviceLife.ObeysExactly | src/comms.cc:124-157 | for every payload and register: the register changes to q iff there is a session and the payload, at least 44 bytes long, opens under the receiving key and the leading id to a text accepted as the newer command q shows; no other payload changes it |
| DeviceLife.RegisterIsDelivered | src/comms.cc:124-157 | through any exchanges, restarts and payloads, the register is that of the texts that opened since the last start, each under the key of its time, delivered in order |
| DeviceLife.JunkMakesNoDifference | src/comms.cc:137-141 | leaving out every payload that did not open leaves the same register and the same session |
| DeviceLife.RegisterReflects | src/policy_engine.cc:134-144 | the register shows the largest accepted timestamp that opened since the last start, with the threshold it first came with |
| DeviceLife.LivesConverge | src/policy_engine.cc:134-144 | two lives that got the same commands since their last starts, in any order and number, under any keys and among any junk, end with the same register if the newest commands agree |
| DeviceLife.CharterIsHeard | charter/commands.py:49-51 | an order encrypted under the key of the last exchange is among those texts, after any history |
| CommandPath.WarningIff | charter/commands.py:41-47 | with any thresholds, losses and restarts: a warning is false, and a drop unwarned, exactly for orders between the last timestamp sent and the largest got since the device started, and for warned ones that do not arrive |
| CommandPath.WarningRightIff | charter/commands.py:41-47 | after any history the warning is right about every next order iff the last timestamp sent is the largest got since the device started |
| CommandPath.SmoothWarningsAreTrue | charter/commands.py:41-47 | a false warning takes a restart, a loss or an order out of range |
| CommandPath.RegisterIsDelivered | charter/commands.py:41-47 | the register the warnings are compared with is that of the texts that arrived since the last start, delivered in order |
| CommandPath.SilentDrop | charter/commands.py:41-47 | sends at 10, 5 and 7: the third is dropped without a warning |
| CommandPath.FalseWarning | charter/commands.py:41-47 | sends at 10 and 5 around a restart: the second is warned about and applied |
| Attestation.RequestBuffer.AppendHex | src/telemetry.cc:64-81 | two lower-case digits per byte, or nothing if they do not fit |
| Attestation.RequestBuffer.BuildQuery | src/telemetry.cc:86-99 | the whole query and its length, or 0 exactly if it does not fit |
| Attestation.HexInjective | src/telemetry.cc:75-79 | the token is recoverable |
| AttestationTexts.UnHexInverts | src/telemetry.cc:75-79 | pairs of digits, high one first, read back as the bytes |
| AttestationTexts.QueryReadsBackIff | src/telemetry.cc:86-99 | a reader with literals of its own gets exactly the evidence back from the query iff the name has no quote |
| AttestationTexts.QueryInjective | src/telemetry.cc:86-99 | whatever the names, different well-formed evidence makes different queries |
| Attestation.QueryFitsAndIsFiltered | src/telemetry.cc:92-96 | at most 176 bytes, and always carries the marker the callback filters on |
| Attestation.Mailbox.OnAttestation | src/comms.cc:158-187 | a message is kept iff it has no query marker, fits, and nothing is waiting |
| Attestation.Mailbox.Take | src/comms.cc:440-455 | hands over what waits, unaltered, once |
| Attestation.Gate.Drain | src/telemetry.cc:134-154 | the latch is set iff it was set or the waiting message is a yes, and the mailbox is left empty |
| Attestation.ReplyAcceptedIff | charter/attestation.py:40-44 | for every name, escaped as json.dumps does: the mailbox keeps the verifier's reply iff it fits and the name is not "query" and does not end with that word right behind a quote |
| Attestation.PlainReplyAcceptedIff | charter/attestation.py:40-44 | for a plain name: iff it has at most 224 characters and is not "query" |
| AttestationTexts.YesIffTrue | src/telemetry.cc:126-131 | a reply with a Boolean verdict, in json.dumps's or the compact spacing, is taken for a yes iff the verdict is true, for every device name |
| JsonStrings.NameReadsBackIff | charter/attestation.py:40-44 | a reader of JSON strings gets the name back from the reply iff it has no lone high surrogate in front of a lone low one |
| TelemetryRun.NothingBeforeAttestation | src/telemetry.cc:198-226 | every publication is of a valid reading and comes after a session and after a kept and drained confirmation |
| TelemetryRun.AttestedStays | src/telemetry.cc:39-41 | the latch never goes back |
| TelemetryRun.MailboxInOrder | src/comms.cc:158-187 | messages kept are messages drained, in order, plus at most the one waiting |
| TelemetryRun.OwnQueryIgnored | src/comms.cc:167-172 | the device's own query, echoed, changes nothing |
| TelemetryRun.ReplyOpensTheGate | src/telemetry.cc:126-131 | with the slot free, the reply and one drain open the gate for every name whose reply is kept |
| TelemetryRun.VerdictDecides | src/telemetry.cc:134-154 | with the slot free, a verdict of either spacing and one drain open a closed gate iff it is true and kept |
| TelemetryRun.RefusedStaysShut | src/telemetry.cc:134-154 | in every run in which nothing arrives but refusals, of whatever names, and queries, the gate stays closed and nothing is published |
| TelemetryRun.AsksUntilAttested | src/telemetry.cc:200-204 | a query is asked, and fits, as long as the gate is closed, and none after |
| TelemetryRun.PublishesIff | src/telemetry.cc:210-231 | a tick publishes iff the gate is open, the reading valid, the broker connected, the session up and sealing works; otherwise it changes nothing |
| TelemetryRun.EverythingIsReadable | charter/encryption.py:32-51 | in every run each frame published opens under the key of its session to its reading's JSON, and carries the number of frames published before it in that session |
| TelemetryRun.NoIdTwice | src/crypto.cc:65-80 | and the ids increase strictly within a session of fewer than 2^64 frames |
| TelemetryRun.FirstTelemetry | src/telemetry.cc:198-231 | from power-up, an exchange, a query, the verifier's reply, a drain and a tick publish the reading, readable, with id 0, and the query gives the evidence, for every name whose reply is kept |
| TelemetryRun.PublishedIsReadable | charter/encryption.py:32-51 | a published frame fits its maximum, and the charter opens it to the reading's JSON |
| Display.AppendDecimal | src/display/display.cc:49-60 | sign, quotient, dot and remainder at the pointer, all else untouched |
| Display.DecimalInjective | src/display/display.cc:49-60 | the text determines the number, for every divisor |
| Display.ShowsTheQuotientIff | src/display/display.cc:48-60 | read as a decimal fraction, the text is the quotient for every number iff the divisor is 1 or 10 |
| Display.LinesFit | src/display/display.cc:133-158 | with its terminator every line takes at most 16 of the 24 bytes |
| Display.Lcd.SensorReadings | src/display/display.cc:114-161 | three lines through one buffer, none showing what an earlier one left behind; no data for a null or invalid reading |
| Display.ScreenInjective | src/display/display.cc:136-160 | equal screens come from readings equal in all that is shown |
| Display.ScreenSays | src/display/display.cc:136-160 | read off their lines, the numbers are the temperature and the humidity in tenths and the raw moisture |
| Display.NumbersIffValid | src/display/display.cc:123-131 | there is a number on the screen iff there is a reading and it is valid |
| Display.ScreenExample | src/display/display.cc:136-160 | the example of the comments: 23.5 C, 45.5 %, 1234 |
| Display.PrintedIsParsed | src/policy_engine.cc:48-81 | what the two printers print, the parser maps back |
| Sensors.FieldsAreTheFortyBits | src/drivers/temperature_sensor.cc:101-107 | the two 20-bit fields side by side are the five data bytes read big-endian: disjoint, and nothing lost |
| Sensors.FieldsDetermineTheBytes | src/drivers/temperature_sensor.cc:101-107 | equal fields iff equal data bytes |
| Sensors.ParseMeasurement | src/drivers/temperature_sensor.cc:97-121 | no product leaves 32 bits, results are the exact rationals rounded down, within -500..1499 and 0..999 |
| Sensors.TemperatureScale | src/drivers/temperature_sensor.cc:109-114 | monotone, and exactly the tenths from -500 to 1499 occur |
| Sensors.HumidityScale | src/drivers/temperature_sensor.cc:116-120 | monotone, and exactly the tenths from 0 to 999 occur |
| Sensors.TemperatureSensor.ReadBoth | src/drivers/temperature_sensor.cc:123-150 | outputs on success only, calibration once, and busy reported exactly for a busy status |
| Sensors.MoistureSource.ReadRaw | src/drivers/moisture_sensor.cc:84-106 | the next reading of the sequence; the subtraction never underflows |
| Sensors.ClosedForm | src/drivers/moisture_sensor.cc:78-106 | readings are 310, 250, then 900 - 60 * ((n - 2) mod 12) |
| Sensors.OneLowInTwelve | src/drivers/moisture_sensor.cc:93-104 | any twelve consecutive readings contain exactly one below 300 |
| Irrigation.TicksAreWhole | src/irrigation.cc:41-77 | in every interleaving the loop's events are whole ticks and the one under way, the pump is on inside a pulse only, and the mailbox holds the timestamp of the last finished tick that watered |
| Irrigation.PumpTime | src/policy_engine.cc:35-37 | over any series of ticks the pump is on for 2500 ms for each watering, started once for each, and off at the end |
| Irrigation.NewestCommandDecides | src/policy_engine.cc:23-39 | a comparison waters iff the reading is below the threshold of the newest command that had arrived |
| Irrigation.ReadingsInOrder | src/telemetry.cc:213 | both threads draw on one sequence, each reading going to one of them |
| Irrigation.ReportIsLastStored | src/irrigation.cc:22-32 | telemetry reports what the mailbox was last given |
| Irrigation.DefaultWatersIff | src/drivers/moisture_sensor.cc:93-96 | without a valid command a tick waters iff it gets one of the low readings |
| Irrigation.OnceInTwelve | src/drivers/moisture_sensor.cc:73-77 | alone with the source, the loop waters exactly once in any twelve ticks |
| Irrigation.SteadyWatersIff | src/drivers/moisture_sensor.cc:73-106 | in any interleaving in which the ticks get every m-th reading from the a-th on, they water, within twelve, iff gcd(m, 12) divides a - 1, and else never |
| Irrigation.PacedIsSteady | src/telemetry.cc:213 | such runs exist for every start, stride and length |
| Irrigation.TurnsWaterIff | src/telemetry.cc:213 | taking turns: never with an even number of telemetry readings first, within twelve ticks with an odd one |
| Strides.Gcd12IsGreatest | src/drivers/moisture_sensor.cc:78-106 | the divisor in these conditions is the greatest common divisor of the stride with the period of the source |
| Irrigation.Loop.TickOnce | src/irrigation.cc:43-73 | one round of the loop does to source, engine and mailbox what the machine's five steps do |

## Left out

- Locks, futex and priority inheritance: each section under a lock is one step, compare-and-sleep is one step, and bump and wake are one step.
- Wake-up by a deadline: expiry is evaluated only when some thread runs a locked section, so a sleeper need not wake at the deadline, and nothing here says it does.
- Batches.Bus.ReserveDevice: the timeout is a number of waits, and interference is any change of the clock and of the table that keeps its addresses distinct; which threads cause it is in BusProtocol.
- BusHolding.SleeperIsBlocked: assumes fewer than 2^32 bumps since the snapshot, because the word wraps.
- BusHolding.BoundedHold: the conversion from milliseconds to ticks is any monotone function.
- Thread ids: unbounded numbers here, 16 bits in the driver; different threads are assumed to have different ids.
- BusOutcomes.Reachable: for a clock that gives the batch at least one tick; the results of calls that gave up waiting are in FinishedBatch and FiveDevicesFillTheTable.
- CommandPath.EndToEnd, DeviceLife.ObeysExactly: the room in the plaintext buffer is a precondition of the device's side, because crypto_decrypt is not told the capacity.
- CryptoSession.IdsAreFresh: up to 2^64 frames, where the counter wraps.
- Attestation.ReplyAcceptedIff: for a device field that is a string; the request's way through json.loads is not modelled.
- CommandPath.WarningIff: what arrives does so in the order sent; for other orders see FramesConvergeIff.
- DeviceLife.LivesConverge: that a frame under another key does not open is a matter of the box; nothing is assumed about it, and what does open counts.
- AttestationTexts.QueryReadsBackIff: the name is not escaped by the device, so the reader takes it byte by byte.
- Display.AppendDecimal: not for the least 32-bit integer, whose negation overflows; the callers pass 16-bit values.
- libhydrogen and cydrogen: a pair of functions with one inverse law and a header of 36 bytes; entropy, key material and the key exchange are parameters.
- Network stack, TLS, SNTP, DHCP, the MQTT broker and its acknowledgements: a message arrives on a topic, a payload is published; a failed publication after encryption counts as published.
- Capability unsealing, pointer checks and MMIO: a capability or a refusal, a null pointer or not, a transfer accepted or not.
- The wrap-around of `pos + keyLen` and `pos + n` in size_t: positions are unbounded integers.
- The two writes of an applied command: one step, although the irrigation thread takes no lock when it reads the threshold.
- The moisture percentage and the real moisture sensor: a clamp and a scale that the loops do not use.
- Drawing, fonts and colours of the display beyond the strings and their heights; the charter's user interface, logging and configuration; UART and debug output; link-time policy.
