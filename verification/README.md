# Signal plugin: verified models

This project models four state machines of `workflow-plugin-signal` in Dafny and
proves what they keep over whole runs. Each component has a value model (one
function per operation, in the source's branch order, with its errors), a class
that does the same work step by step on mutable state and is proved equal to the
value model, and run lemmas that quantify over every sequence of events. What
each operation answers and leaves behind is stated apart from its value model,
field by field from the request, with the first unmet demand that refuses it.

**Envelope store** (`envelope_values.dfy`, `retention.dfy`, `envelope_runs.dfy`,
`envelope_answers.dfy`, `envelope_store.dfy`, names in `refs.dfy`). Memory, the storage file and its
`.tmp` neighbour are separate parts of the state. Every persist takes an outcome
(success or the step that failed); a restart reloads the file under any
configuration. The JSON image drops zero-valued `omitempty` fields. Go
iterates maps in no fixed order, so `retention.dfy` scans a given order and says
which records some orders can leave; the loop itself is a method that visits in
any order and is proved to leave one of those outcomes.
The class keeps records, envelopes and ciphertext buffers as objects, claims a
record in place, and copies deeply in and out.

**Sealed custody store** (`sealing.dfy`, `sealed_model.dfy`, `sealed_runs.dfy`,
`sealed_answers.dfy`, `sealed_store.dfy`, `rotate_steps.dfy`). The directory is a map from file names
to contents. A bundle write is the list of directory states it passes through
(temporary file created, written, renamed, deferred remove), so a crash may stop
it after any of them. Sealing is symbolic. Host secrets are a fixed function;
the digest behind file names never starts with a dot and is injective on the
refs in use. The rotate step inspects and rotates in two critical sections, and
`rotate_steps.dfy` interleaves any number of them with everything else.

**Linked-device replay guard** (`replay_guard.dfy`, `link_prepare.dfy`). Calls
are listed in lock order with the clock reading each made before the lock.

**Registries and resolvers** (`registry.dfy`). Module initialisation in any
order, and the two separately written resolvers.

**Persistent custody** (`persistent_custody.dfy`). The seed file that Init loads
or creates; the first write may tear.

Clock readings, random bytes and failures are parameters everywhere.

## What the proofs found

- The inequality "claims never exceed enqueues" holds for every mix of failed
  persists, evictions and restarts, also when restarts switch between the memory
  and file backends.
- Envelope refs do not depend on sender or recipient once an idempotency key is
  given. Keys that differ only in separators can share a ref
  (`Refs.DistinctKeysCanCollide`; exactly when is `Refs.RefsCollideIffSegmentsDo`),
  plain keys never do
  (`Refs.PlainKeysNeverCollide`), and keys of nothing but slashes follow the clock
  (`Refs.SlashKeysFollowTheClock`).
- An enqueue or a receive can answer with a record that it has just evicted;
  exactly when is `EnvelopeRuns.EnqueueCanLoseItsRecord` and
  `EnvelopeRuns.ReceiveCanLoseItsRecord`.
- A record under the empty key hides itself from the scan, which then evicts a
  newer one (`Retention.EmptyKeyHidesItself`). The oldest-first order can break
  exactly when fewer of the other records are no newer than it than records have
  to go (`Retention.OrderBreaksIff`). No run brings such a record in
  (`EnvelopeRuns.StepAddsNoEmptyKey`), so without a foreign image every eviction
  is oldest first (`EnvelopeRuns.EvictionsGoOldestFirst`).
- Purging can accept a live consent again when the clock peaks: it then forgets an
  acceptance that an earlier reading would still honour
  (`ReplayGuard.PeakForgets`). Over all ceremonies presented at given times, the
  guard agrees with one that never forgets if and only if the clock readings have
  no peak (`ReplayGuard.AgreesIffNoPeak`).
- A consent is spent even when the prepare half of the link step fails
  (`LinkPrepare.FailedPrepareSpendsConsent`), and for how long is exact
  (`LinkPrepare.RetryRefusedIffUnexpired`).
- The KEK version check lets two rotate steps win on the same sight exactly when a
  target is the version the race begins with, or when two targets are equal and
  there is a third step (`RotateSteps.ClashExactly`).
- A revoked ref stays revoked exactly until a Create of it is committed
  (`SealedRuns.RevokedUntilRecreated`); a Create that fails or crashes early does
  not count.
- The order in which an account and a custody module initialise can show: a new
  account is refused after, and accepted before, a custody of another owner under
  its custody ref, and only then (`Registries.NewAccountOrderShowsIff`; with earlier
  registrations, `Registries.InitOrderShowsIff`).
- A prepare request that names no account takes the owner of its custody, and is
  warned that the account is not registered even when it is
  (`Registries.UnregisteredMeaning`).
- A custody ref initialised again on another path silently gets another key
  (`PersistentCustody.AnotherPathReplacesTheKey`); on one path it keeps its key at
  every moment (`PersistentCustody.DerivedKeysHoldThroughout`).
- The first write of a persistent custody file is not atomic. After a failed first
  Init the path can be used again exactly when the write did not tear
  (`PersistentCustody.FailedFirstInitHealsIffNotTorn`).
- Associated data joined by NUL bytes binds its labels exactly when none of them
  holds a NUL (`SealedRuns.LabelsBindIffNulFree`,
  `PersistentCustody.SealBindsRefsIffNulFree`).

## Model

| member | source | states |
|---|---|---|
| Refs.SanitizeIdempotent | internal/envelope_store.go:345-347 | Sanitised text passes through sanitising unchanged. |
| Refs.SanitizeIsClean | internal/envelope_store.go:345-347 | No slash and no NUL survives sanitising, and nothing is left exactly when the text was only slashes. |
| Refs.EnvelopeRefIsGenerated | internal/envelope_store.go:335-343 | Every ref the store generates is its queue prefix and a non-empty clean segment, also when only the clock supplies it. |
| Refs.SanitizeInjectiveOnGenerated | internal/envelope_store.go:335-347 | Two generated outbox refs that sanitise alike are equal. |
| Refs.LeaseNamesItsEnvelope | internal/envelope_store.go:200 | One lease ref cannot be issued for two generated refs, whatever the claimants and lease ids. |
| Refs.RefsCollideIffSegmentsDo | internal/envelope_store.go:335-343 | Any two submissions share a ref exactly when their key, or else message ref, or else sender and recipient, trimmed, read alike after replacing separators, with the clock standing in for texts of only slashes. |
| Refs.PlainKeysNeverCollide | internal/envelope_store.go:335-347 | Keys without a slash or NUL share a ref exactly when they are equal, whatever the clock. |
| Refs.SlashKeysFollowTheClock | internal/envelope_store.go:339-341 | Keys of only slashes share a ref exactly when the clock readings are equal, and with the key that spells the reading. |
| Refs.DistinctKeysCanCollide | internal/envelope_store.go:335-347 | A concrete pair of different keys that name the same envelope. |
| Refs.PlainRefsRead | internal/envelope_store.go:335-343 | The literal ref for texts without separators: the scheme, the queue, then the key, or else the message ref, or else sender and recipient joined by a dash. |
| Refs.OuterSlashesDropOut | internal/envelope_store.go:337 | Slashes around a plain text drop out of the name. |
| Refs.InnerSeparatorsReadAsDashes | internal/envelope_store.go:345-347 | A scheme separator, a slash or a NUL between plain texts reads as one dash. |
| Refs.Join4Injective | internal/custody/sealed_store.go:341-343 | Equal four-field associated data forces equal fields when the first three hold no NUL. |
| Refs.JoinNamesFieldsIffNulFree | internal/custody/sealed_store.go:341-343 | A quadruple is the only one with its join exactly when all four fields are NUL-free. |
| EnvelopeValues.DecodeUndoesEncode | internal/envelope_store.go:40-54 | A record survives the JSON image although its zero-valued omitempty fields are not written. |
| EnvelopeValues.LoadUndoesPersist | internal/envelope_store.go:246-291 | Loading what a persist wrote restores the whole memory. |
| EnvelopeValues.PersistNeverTears | internal/envelope_store.go:271-291 | At every step of a persist the storage path holds the old image or the complete new one, and the new one only on success. |
| EnvelopeRuns.StepPaysForClaims | internal/envelope_store.go:136-231 | One event: a successful claim consumes the token of a ref queued in memory or on disk; only an enqueue of the ref adds one. |
| EnvelopeRuns.ClaimsArePaidFor | internal/envelope_store.go:136-231 | Any run from any state: claims plus one if still claimable never exceed enqueues plus what was claimable at the start. |
| EnvelopeRuns.ClaimsNeverExceedEnqueues | internal/envelope_store.go:172-205 | From an empty store, claims of a ref never exceed the enqueues of it that reached the map. |
| EnvelopeRuns.ReclaimNeedsEnqueue | internal/envelope_store.go:182-205 | After a file-backed claim every further claim of the ref, across failures and restarts, needs its own enqueue. |
| EnvelopeRuns.FailedPersistLosesTheClaim | internal/envelope_store.go:198-203 | A claim blocks the record in memory even when its persist fails; a restart gives the record back exactly when the persist failed, at whatever step. |
| EnvelopeRuns.HealthyStepStaysSynced | internal/envelope_store.go:246-291 | With successful persists the file always loads to what memory holds, and a restart changes nothing. |
| EnvelopeRuns.RestartsAreTransparent | internal/envelope_store.go:246-291 | From any loadable file without null records or envelopes, restarts inserted anywhere in a file-backed run with successful persists change no reply and no final state. |
| EnvelopeRuns.StepStaysWellNamed | internal/envelope_store.go:158-200 | Outbox keys stay generated refs, records sit under their own ref, leases name it, in memory and on disk. |
| EnvelopeRuns.LeasesAreUnique | internal/envelope_store.go:200 | Two records of any reachable outbox never carry the same lease. |
| EnvelopeRuns.IssuedLeasesAreUnique | internal/envelope_store.go:200 | Over a whole run one lease ref is never issued for two envelopes. |
| Retention.ScanFinds | internal/envelope_store.go:299-310 | In any visiting order a scan finds an oldest record, unless the one under the empty key is strictly the oldest. |
| Retention.MayKeepExactly | internal/envelope_store.go:293-313 | Over all visiting orders of all scans: which sets of records the loop can leave, no more and no fewer. |
| Retention.NamedKeysGoOldestFirst | internal/envelope_store.go:293-313 | Without an empty key, the loop can leave a set exactly when the excess is gone and nobody evicted is newer than anybody kept. |
| Retention.OrderBreaksIff | internal/envelope_store.go:306-311 | Some orders break oldest-first exactly when a record under the empty key has fewer others no newer than it than records have to go. |
| Retention.EmptyKeyHidesItself | internal/envelope_store.go:306-311 | The smallest input on which the order breaks. |
| Retention.EvictableIffFewAhead | internal/envelope_store.go:293-313 | In some visiting orders a record is evicted exactly when fewer records are ahead of it than have to go, empty key or not. |
| EnvelopeRuns.StepAddsNoEmptyKey | internal/envelope_store.go:158-226 | No call and no restart brings in a record under the empty key, in memory or on disk, outbox or inbox. |
| EnvelopeRuns.EvictionsGoOldestFirst | internal/envelope_store.go:293-313 | In every run from a store without empty keys, a fresh one included, what each call can leave is exactly an oldest-first retention. |
| EnvelopeRuns.EnqueueCanLoseItsRecord | internal/envelope_store.go:174-194 | An enqueue can succeed and the next claim find nothing, exactly when fewer records are strictly older than the new one than have to go. |
| EnvelopeRuns.ReceiveCanLoseItsRecord | internal/envelope_store.go:225-243 | A receive can succeed and the envelope not be there to read, under the same exact condition. |
| EnvelopeRuns.QueuesStayBounded | internal/envelope_store.go:293-313 | With a positive limit no queue exceeds it in memory or on disk, over every run with that limit. |
| EnvelopeAnswers.EnqueueAnswers | internal/envelope_store.go:136-180 | Refused for the first missing field, or the outbox gains exactly the submitted envelope, queued, each metadata field from its own input field, and the answer is that record or the storage error. |
| EnvelopeAnswers.ClaimAnswers | internal/envelope_store.go:182-205 | Refused for the first reason, or the one record is claimed, at the requested time or the clock's, under the literal lease of the lease id or else the claimant, and nothing else moves. |
| EnvelopeAnswers.QueuedCanBeClaimed | internal/envelope_store.go:136-205 | What was enqueued and kept can be claimed by anybody named, comes out as it went in, and not twice. |
| EnvelopeAnswers.ReceiveAnswers | internal/envelope_store.go:207-231 | Refused without an envelope, or the inbox gains exactly it, under the ref given or else made, with the recipient and the time of receipt. |
| EnvelopeAnswers.ReceivedCanBeRead | internal/envelope_store.go:207-244 | A kept received envelope reads back as it came, others as before, and nothing else is there. |
| EnvelopeAnswers.RestartAnswers | internal/envelope_store.go:90-111 | Empty on a memory backend, exactly the file on a loadable one, otherwise an error with the old store in place; loadable means version 1 and every field of the kind the encoder gives it. |
| EnvelopeAnswers.ImageDropsZeroFields | internal/envelope_store.go:40-54 | Which fields a stored record has, and their values. |
| EnvelopeAnswers.PersistLeavesTemp | internal/envelope_store.go:271-291 | Storage file, temporary file and error after each way a persist can end. |
| EnvelopeAnswers.StepStaysDated | internal/envelope_store.go:160-226 | Outbox records never have a time of receipt nor inbox records one of creation, in memory and on disk. |
| EnvelopeAnswers.EvictionsGoByArrival | internal/envelope_store.go:293-313 | In every run from a fresh store, an enqueue evicts exactly by time of creation and a receive by time of receipt. |
| EnvelopeStores.EnvelopeStore.FindOldest | internal/envelope_store.go:299-310 | One pass over the map returns a record that a scan in some visiting order finds. |
| EnvelopeStores.EnvelopeStore.EnforceRetention | internal/envelope_store.go:293-313 | For any iteration order the loops end, and leave a set of records that some visiting orders can leave. |
| EnvelopeStores.EnvelopeStore.Persist | internal/envelope_store.go:271-291 | The write-temp-then-rename steps leave the file and the error the model gives for each failing step. |
| EnvelopeStores.EnvelopeStore.Enqueue | internal/envelope_store.go:136-180 | New memory, file and reply on every path; the answer is fresh and shares no object with the store, which adopts only fresh objects. |
| EnvelopeStores.EnvelopeStore.Claim | internal/envelope_store.go:182-205 | The in-place claim changes one record and gives the model's memory, file and reply, also when the persist fails. |
| EnvelopeStores.EnvelopeStore.Receive | internal/envelope_store.go:207-231 | As Enqueue, for the inbox. |
| EnvelopeStores.EnvelopeStore.Inbox | internal/envelope_store.go:233-244 | Reads a deep copy of the stored record or the exact error. |
| EnvelopeStores.EnvelopeStore.Open | internal/envelope_store.go:90-103 | A new store holds exactly the loaded state in fresh objects, or the answer is the read, decode or version error. |
| EnvelopeStores.StoreTable.Init | internal/envelope_store.go:90-111 | Init registers the new store under its name and store ref; a load error leaves the table and the older store alone. |
| EnvelopeStores.RegisteredIsFound | internal/envelope_store.go:104-109 | The new store is found under its name and its store ref, and every other name as before. |
| EnvelopeStores.ScribbleOutside | internal/envelope_store.go:356-377 | Overwriting any record, envelope and buffer outside the store leaves its whole state as it was. |
| EnvelopeStores.EnqueueThenScribble | internal/envelope_store.go:160-161 | The caller reuses its submitted envelope; the store still holds what was submitted. |
| EnvelopeStores.ClaimThenScribble | internal/envelope_store.go:370-377 | The claimant overwrites the record it was handed; the store is unaffected. |
| SealedModel.TempIsNoBundle | internal/custody/sealed_store.go:258-264 | No temporary name is a bundle name, so the deferred remove never touches a bundle. |
| SealedModel.BundleNamesDiffer | internal/custody/sealed_store.go:336-339 | Different refs in use have different bundle paths. |
| SealedStores.SealedStore.WriteBundle | internal/custody/sealed_store.go:242-277 | Step by step, the directory passes through exactly the modelled states, with the modelled error for every failing step. |
| SealedStores.SealedStore.New | internal/custody/sealed_store.go:83-103 | Which configurations open, with the error of the first missing part, and the default schema version. |
| SealedStores.SealedStore.Create | internal/custody/sealed_store.go:111-135 | Resulting directory, configuration and answer, unconditional overwrite included. |
| SealedStores.SealedStore.Restore | internal/custody/sealed_store.go:137-151 | The stored metadata, or the exact error for missing, unreadable, torn, stale, undecryptable or revoked bundles. |
| SealedStores.SealedStore.Inspect | internal/custody/sealed_store.go:153-164 | As Restore, but revoked bundles can be inspected. |
| SealedStores.SealedStore.Rotate | internal/custody/sealed_store.go:166-203 | The compare-and-swap on the version, the resealed bundle, and the store's KEK moved only after a successful write. |
| SealedStores.SealedStore.Revoke | internal/custody/sealed_store.go:205-221 | Resulting directory and answer of a revocation. |
| SealedAnswers.InspectAnswers | internal/custody/sealed_store.go:153-164 | In any directory: the stored metadata, or the first reason why the bundle cannot be read. |
| SealedAnswers.RestoreAnswers | internal/custody/sealed_store.go:137-151 | The same, and revoked refs refused. |
| SealedAnswers.SoundReads | internal/custody/sealed_store.go:223-240 | In directories the store made, a ref can be read exactly when it is stored under the store's KEK pair. |
| SealedAnswers.WriteLeaves | internal/custody/sealed_store.go:242-277 | A successful write adds exactly the sealed bundle; a failed one, with its first error, leaves nothing unless the remove of a made temporary file fails. |
| SealedAnswers.CreateAnswers | internal/custody/sealed_store.go:111-135 | Create succeeds exactly when its write does, over anything stored, and stores and answers metadata named field by field. |
| SealedAnswers.RotateAnswers | internal/custody/sealed_store.go:166-203 | Rotate succeeds exactly for a readable unrevoked ref at the expected version whose write goes through; otherwise the first reason; the new metadata and KEK. |
| SealedAnswers.RevokeAnswers | internal/custody/sealed_store.go:205-221 | Revoke succeeds exactly for a readable ref, in either state, whose write goes through, and stores it revoked. |
| SealedAnswers.CreatedCanBeRevoked | internal/custody/sealed_store.go:111-221 | On a healthy disk a created ref restores, can be revoked, and is then only inspected. |
| SealedAnswers.OpenAnswers | internal/custody/sealed_store.go:83-103 | The first missing part of a configuration, and schema version 1 unless given. |
| SealedAnswers.ReopenAnswers | internal/custody/sealed_store.go:83-103 | A reopened store has the new configuration over the same directory, or nothing changes. |
| SealedAnswers.ConfigMovesOnlyBy | internal/custody/sealed_store.go:193-202 | Only a Rotate that returns success, or a reopening, moves the store's KEK; a crashed one leaves it. |
| SealedAnswers.NamesAndLabels | internal/custody/sealed_store.go:258-343 | The literal bundle and temporary file names and associated data. |
| SealedRuns.WriteIsAtomic | internal/custody/sealed_store.go:242-277 | At every step of a write each bundle path holds the old content, or at the very end of a write without error the complete new bundle. |
| SealedRuns.ReadersSeeOldOrNew | internal/custody/sealed_store.go:223-240 | A reader at any step of a write sees the old state or the new one, never a temporary file. |
| SealedRuns.ErrorsChangeNothing | internal/custody/sealed_store.go:193-221 | An operation that returns an error leaves all bundles and the store's KEK unchanged. |
| SealedRuns.EventEffect | internal/custody/sealed_store.go:111-276 | The only effect of a call or crash on bundle paths is the one committed bundle. |
| SealedRuns.RunStaysSound | internal/custody/sealed_store.go:111-317 | Seal invariant and rotation chain together, over runs of calls, crashes and reopenings with any configuration. |
| SealedRuns.SealInvariant | internal/custody/sealed_store.go:279-317 | Every stored bundle opens under its own KEK and labels to the material of the last committed Create of its ref. |
| SealedRuns.RotationsLink | internal/custody/sealed_store.go:186-197 | Since the last Create each rotation of a ref expected exactly the version before it, in every run. |
| SealedRuns.DiskHoldsLastVersion | internal/custody/sealed_store.go:166-203 | The bundle on disk carries the target of the last rotation, or the created version. |
| SealedRuns.ReadableIffPairMatches | internal/custody/sealed_store.go:223-240 | In reachable states a ref reads back exactly when its stored KEK pair is the store's, and then to its material. |
| SealedRuns.RotateReadableSet | internal/custody/sealed_store.go:193-240 | After rotating A the readable refs are A and those already stored under the new pair. |
| SealedRuns.RotateKeepsIdentity | internal/custody/sealed_store.go:166-203 | A rotation found the expected version and changes only KEK and rotation time; the material is the same. |
| SealedRuns.CreateThenRestore | internal/custody/sealed_store.go:111-151 | Restore returns what Create returned, with the created material. |
| SealedRuns.StaleBundleWaits | internal/custody/sealed_store.go:232-234 | While stale and not recreated, failed and crashed Creates aside, a bundle keeps its bytes, and reads back with the same material once the store returns to its pair. |
| SealedRuns.RevocationEndsOnlyByCreate | internal/custody/sealed_store.go:111-221 | One call, crash or reopening un-revokes a ref exactly when it commits a Create of it. |
| SealedRuns.RevokedUntilRecreated | internal/custody/sealed_store.go:111-221 | A revoked ref stays revoked throughout a run exactly when the run commits no Create of it. |
| SealedRuns.RevocationIsFinal | internal/custody/sealed_store.go:147-149 | While no Create of the ref is committed, Restore and Rotate of it fail and change nothing, after any continuation. |
| SealedRuns.RevokeThenInspect | internal/custody/sealed_store.go:205-221 | Revoke changes state and time only; the ref can be inspected and no longer restored. |
| SealedRuns.CreateUndoesRevocation | internal/custody/sealed_store.go:111-135 | A Create revives a revoked ref: the exception is real. |
| SealedRuns.OpensOnlyUnderItsLabels | internal/custody/sealed_store.go:292-308 | A term sealed under NUL-free labels opens exactly under its own backend, ref, KEK ref and KEK version, with its own key. |
| SealedRuns.LabelsBindIffNulFree | internal/custody/sealed_store.go:341-343 | A sealed term opens under no other labels exactly when its own hold no NUL. |
| RotateSteps.ActionMoves | internal/custody_steps.go:58-71 | Every phase, crashed ones and other activity included, either leaves the race as it is, records what a step saw, or lets a step win that saw the current version. |
| RotateSteps.WinnersSawDifferentVersions | internal/custody_steps.go:58-71 | With fresh distinct targets and no Create committed, no two rotate steps whose rotation became durable inspected the same version, in any interleaving. |
| RotateSteps.SuccessfulStepsSawDifferentVersions | internal/custody_steps.go:58-71 | The same for the steps that returned success to their callers. |
| RotateSteps.FirstVersionIsTakenOnce | internal/custody_steps.go:58-71 | With fresh targets alone, shared or not, no two winners saw the version the race began with. |
| RotateSteps.ClashExactly | internal/custody_steps.go:58-71 | Two steps can win on the same sight if and only if a target is the first version, or two targets are equal and there are three steps. |
| ReplayGuard.CeremonyGuard.ValidateCeremony | internal/steps_service_operations.go:62-101 | For any purge order the map and the verdict are those of the model, error order included. |
| ReplayGuard.CeremonyVerdict | internal/steps_service_operations.go:62-101 | A call is decided by the map exactly for a complete, unexpired ceremony whose proof does not begin with the revoked scheme; otherwise refused for what it lacks first, with the map untouched; the resulting map in full. |
| ReplayGuard.ClaimsAreUnpurgedAcceptances | internal/steps_service_operations.go:88-99 | The map holds a consent exactly when some acceptance of it is unpurged, with that acceptance's expiry. |
| ReplayGuard.VerdictExactly | internal/steps_service_operations.go:88-100 | With no clock assumption: replay exactly when an earlier acceptance survived every purge up to this call's own. |
| ReplayGuard.SecondAcceptanceNeedsPurge | internal/steps_service_operations.go:75-99 | A second acceptance needs a purge in between with a clock at or past the first expiry. |
| ReplayGuard.ReplayHasUnexpiredAcceptance | internal/steps_service_operations.go:95-98 | A replay verdict always has an earlier acceptance unexpired by the call's own clock. |
| ReplayGuard.NoPeakIsInvisible | internal/steps_service_operations.go:88-99 | Where the locking calls' clock readings have no peak, every verdict equals that of a guard that never forgets. |
| ReplayGuard.PurgingIsInvisible | internal/steps_service_operations.go:88-99 | In particular with clock readings that follow lock order. |
| ReplayGuard.AgreesIffNoPeak | internal/steps_service_operations.go:75-99 | For given clock readings, the guard agrees with one that never forgets on all ceremonies if and only if the readings have no peak. |
| ReplayGuard.PeakForgets | internal/steps_service_operations.go:75-99 | For every peak, ceremonies with which the guard accepts a live consent twice. |
| LinkPrepare.FailedPrepareSpendsConsent | internal/steps_service_operations.go:40-60 | After a failed prepare half every retry before the expiry is refused as a replay, whatever is registered meanwhile. |
| LinkPrepare.RetryRefusedIffUnexpired | internal/steps_service_operations.go:44-99 | When nobody else presents the consent, that refusal lasts exactly until a clock reading reaches the expiry. |
| LinkPrepare.ExecuteStep | internal/steps_service_operations.go:40-60 | The step on the live guard and registry: claims and outcome on every path. |
| LinkPrepare.StepAnswers | internal/steps_service_operations.go:40-60 | Refused with the guard's verdict, or answered as the resolver answers the request with the ceremony's consent where it has none. |
| Registries.Registry.RegisterKeyCustody | internal/key_custody.go:50-80 | Validation order and the resulting tables. |
| Registries.Registry.RegisterPersistent | internal/custody.go:77-226 | Required fields, backend opt-ins, then the seed loaded or created by the process; the process keeps its record and the registry its custody, or neither changes. |
| Registries.Registry.RegisterAccount | internal/key_custody.go:82-117 | Captures the custody registered now, refuses another owner's. |
| Registries.Registry.ResolvePrepare | internal/steps_service_operations.go:258-301 | Field-by-field resolution in any state, stale snapshots included. |
| Registries.Registry.TestRequestContext | internal/service_test_steps.go:201-244 | The second resolver in any state, with the client options it asks for. |
| Registries.InitsKeepConsistency | internal/key_custody.go:69-117 | Any sequence of Inits keeps everything under its own ref, custodies owned, snapshots named by their account. |
| Registries.ResolversAgree | internal/service_test_steps.go:201-244 | In every reachable state, for a registered account, both resolvers give the same error or the same refs and custody. |
| Registries.ResolversPartOnUnregistered | internal/steps_service_operations.go:274-297 | For an unregistered account exactly when the prepare resolver still succeeds, while the other fails with the error of its lookup. |
| Registries.UnregisteredMeaning | internal/steps_service_operations.go:258-301 | What the prepare resolver then answers: error, fields, attestation and warnings, the account taken from a custody included. |
| Registries.ResolutionMeaning | internal/steps_service_operations.go:258-301 | For a registered account: the exact error, or every resolved ref, attested exactly with a custody and a key, and the warnings. |
| Registries.OptionsMeaning | internal/service_test_steps.go:236-242 | Exactly the client options the step and its input ask for. |
| Registries.InitMeaning | internal/key_custody.go:50-117 | Each Init is refused for its first unmet demand and changes nothing, or registers what its configuration says and nothing else. |
| Registries.ConfiguredResolves | internal/key_custody.go:69-117 | From configuration to use: after a custody and its account initialise, a bare request for the account gets everything both were configured with. |
| Registries.SnapshotsAreInvisible | internal/key_custody.go:104-112 | The custody an account captured never shows in a resolution. |
| Registries.NewAccountOrderShowsIff | internal/key_custody.go:92-117 | For a new account, and inits each accepted when first: all requests resolve alike in both orders if and only if not (same custody ref and different owner). |
| Registries.InitOrderShowsIff | internal/key_custody.go:69-117 | In general: alike if and only if the account is accepted in both orders or in neither, or the registration it would replace answers every request as it does. |
| PersistentCustody.CustodyProcess.LoadOrCreateSeed | internal/custody.go:228-250 | Files and result on every path, including a first write that fails with nothing, a part or everything on disk. |
| PersistentCustody.CustodyProcess.InitModule | internal/custody.go:194-216 | Files, persistent record and result of one Init, up to the key-custody entry that RegisterPersistent adds. |
| PersistentCustody.DecryptMeaning | internal/custody.go:278-306 | A stored seed opens exactly under version 1, its own four refs and the right key, with the first error otherwise. |
| PersistentCustody.InitMeaning | internal/custody.go:194-276 | Answer, files and records after each way one Init can go, the written envelope named field by field. |
| PersistentCustody.DeriveMeaning | internal/custody.go:341-354 | Keys come from the record's seed, for every label but the empty one. |
| PersistentCustody.RestartForgetsKeys | internal/custody.go:345-350 | After a restart no key is derived until the next Init; the files stay. |
| PersistentCustody.FilesAreFrozen | internal/custody.go:228-230 | A seed file that exists is never written again, by any run of Inits and restarts. |
| PersistentCustody.SeedsStick | internal/custody.go:228-306 | After a successful Init on a path, later ones succeed only for the same four refs and with the same seed, and nothing but a read failure stops those. |
| PersistentCustody.OtherRefsAreRefused | internal/custody.go:286-288 | A configuration differing in any bound ref fails and leaves everything untouched. |
| PersistentCustody.DerivedKeysStick | internal/custody.go:341-354 | Right after any later successful Init of the configuration, whatever happened between, the derived key is the same for every label, and it is the seed's. |
| PersistentCustody.DerivedKeysHoldThroughout | internal/custody.go:341-354 | While the custody ref is always initialised on one path: at every moment of every run a derivation answers that key, or that nothing is registered. |
| PersistentCustody.AnotherPathReplacesTheKey | internal/custody.go:214-216 | An Init of the same ref on an unused path succeeds and changes the derived keys exactly when its seed differs. |
| PersistentCustody.TornFileNeverHeals | internal/custody.go:246-248 | A torn first write makes the path unusable for every configuration. |
| PersistentCustody.FailedFirstInitHealsIffNotTorn | internal/custody.go:228-250 | After a failed first Init the path can be used again exactly when its write did not tear. |
| PersistentCustody.SeedOpensOnlyForItsRefs | internal/custody.go:301-322 | Even under a rewritten header a seed stored under NUL-free refs opens for another configuration exactly when all four refs agree. |
| PersistentCustody.SealBindsRefsIffNulFree | internal/custody.go:320-322 | A stored seed opens for no other refs exactly when its own hold no NUL. |

## Left out

- AES-GCM, SHA-256, HMAC, base64 and JSON text: symbolic sealed terms, symbolic tags, and images at the level of fields; strings are taken as valid UTF-8.
- SealedRuns.RunStaysSound: path names are injective on the refs in use, as a hypothesis, because a digest cut to sixteen bytes cannot be injective on all refs.
- EnvelopeRuns.RestartsAreTransparent: a storage file with a null record or a null envelope, which only a foreign writer makes; the source loads both, then treats a null record as absent when it claims or reads, and fails on it when it evicts.
- EnvelopeStores.EnvelopeStore.Persist: JSON encoding of a state cannot fail here, so the source's encode error has no outcome.
- EnvelopeStores.EnvelopeObject: the scalar fields of a Go struct are one value field, so an update of one is an update of that value.
- Two store objects on one directory or path: each mutex belongs to one object.
- PersistentCustody: concurrent Inits on one path; Init takes no lock around its file.
- Opt-in flags and production policy mode of the two store modules, and the store registries by name: one-branch checks.
- Session, fingerprint, account-key, username, transport, policy and compliance steps: the deciding code is in libraries that are not part of this model.
- Rendering of refs for display (attestation, audit and operation refs): string formatting of values the model keeps.
